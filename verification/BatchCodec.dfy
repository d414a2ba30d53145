/** The typed binary batch format: a column table, then rows of a null bitmap and values. */
module BatchCodec {
  import opened Base
  import opened Wire
  import opened Items

  datatype Kind = Int32 | Int64 | Float64 | Date32 | Utf8

  /** Integers as numbers, floats as their bit patterns, text as its UTF-8 bytes. */
  datatype Value = Int(n: int) | Float(bits: nat) | Text(bytes: Bytes)

  type Cell = Option<Value>

  datatype Column = Column(name: Bytes, kind: Kind, cells: seq<Cell>)

  datatype Batch = Batch(columns: seq<Column>, rows: nat)

  type Utf8Check = Bytes -> bool

  const MAGIC: Bytes := [0x4E, 0x42, 0x02]

  function Tag(k: Kind): byte {
    match k
    case Int32 => 0
    case Int64 => 1
    case Float64 => 2
    case Date32 => 3
    case Utf8 => 4
  }

  function KindOf(tag: byte): Option<Kind> {
    if tag == 0 then Some(Int32) else if tag == 1 then Some(Int64) else if tag == 2 then Some(Float64)
    else if tag == 3 then Some(Date32) else if tag == 4 then Some(Utf8) else None
  }

  // ---------------------------------------------------------------- values

  function Width(k: Kind): nat {
    match k
    case Int32 => 4
    case Date32 => 4
    case _ => 8
  }

  function Modulus(k: Kind): nat {
    if Width(k) == 4 then U32_LIMIT else U64_LIMIT
  }

  /** Two's complement. */
  function Unsigned(n: int, k: Kind): nat
    requires -2 * n <= Modulus(k)
  {
    if n < 0 then n + Modulus(k) else n
  }

  function Signed(u: nat, k: Kind): int {
    if 2 * u < Modulus(k) then u else u - Modulus(k)
  }

  /** The value is one the column type can hold. */
  predicate Fits(utf8: Utf8Check, k: Kind, v: Value) {
    match k
    case Float64 => v.Float? && v.bits < U64_LIMIT
    case Utf8 => v.Text? && utf8(v.bytes)
    case _ => v.Int? && -2 * v.n <= Modulus(k) && 2 * v.n < Modulus(k)
  }

  function EncodeValue(k: Kind, v: Value): Bytes
    requires v.Int? ==> -2 * v.n <= Modulus(k)
  {
    match v
    case Int(n) => LittleEndian(Unsigned(n, k), Width(k))
    case Float(bits) => LittleEndian(bits, 8)
    case Text(b) => LittleEndian(|b| % U32_LIMIT, 4) + b
  }

  function ReadUint(b: Bytes, pos: nat, w: nat): Option<nat> {
    if pos + w > |b| then None else Some(FromLittleEndian(b[pos..pos + w]))
  }

  function ReadBytes(b: Bytes, pos: nat, len: nat): Option<Bytes> {
    if pos + len > |b| then None else Some(b[pos..pos + len])
  }

  function ReadValue(utf8: Utf8Check, b: Bytes, pos: nat, k: Kind): Option<(Value, nat)> {
    match k
    case Utf8 =>
      (match ReadUint(b, pos, 4)
       case None => None
       case Some(len) =>
         match ReadBytes(b, pos + 4, len)
         case None => None
         case Some(text) => if utf8(text) then Some((Text(text), pos + 4 + len)) else None)
    case Float64 =>
      (match ReadUint(b, pos, 8)
       case None => None
       case Some(bits) => Some((Float(bits), pos + 8)))
    case _ =>
      match ReadUint(b, pos, Width(k))
      case None => None
      case Some(u) => Some((Int(Signed(u, k)), pos + Width(k)))
  }

  lemma ReadsUint(b: Bytes, pos: nat, n: nat, w: nat)
    requires n < Pow256(w) && At(b, pos, LittleEndian(n, w))
    ensures ReadUint(b, pos, w) == Some(n)
  {
    LittleEndianRoundTrip(n, w);
  }

  lemma IntRoundTrip(utf8: Utf8Check, b: Bytes, pos: nat, k: Kind, n: int)
    requires Fits(utf8, k, Int(n)) && At(b, pos, EncodeValue(k, Int(n)))
    ensures ReadValue(utf8, b, pos, k) == Some((Int(n), pos + Width(k)))
  {
    Pow256Values();
    ReadsUint(b, pos, Unsigned(n, k), Width(k));
  }

  /** A length that fits its field is read back from its bytes. */
  lemma LengthReads(b: Bytes, pos: nat, n: nat, limit: nat, w: nat)
    requires n < limit == Pow256(w) && At(b, pos, LittleEndian(n % limit, w))
    ensures ReadUint(b, pos, w) == Some(n)
  {
    SmallRemainder(n, limit);
    ReadsUint(b, pos, n, w);
  }

  lemma SmallRemainder(n: nat, limit: nat)
    requires n < limit
    ensures n % limit == n
  {
  }

  lemma TextReads(utf8: Utf8Check, b: Bytes, pos: nat, text: Bytes)
    requires utf8(text) && ReadUint(b, pos, 4) == Some(|text|) && At(b, pos + 4, text)
    ensures ReadValue(utf8, b, pos, Utf8) == Some((Text(text), pos + 4 + |text|))
  {
  }

  lemma TextRoundTrip(utf8: Utf8Check, b: Bytes, pos: nat, text: Bytes)
    requires utf8(text) && |text| < U32_LIMIT && At(b, pos, EncodeValue(Utf8, Text(text)))
    ensures ReadValue(utf8, b, pos, Utf8) == Some((Text(text), pos + 4 + |text|))
  {
    Pow256Values();
    AtParts(b, pos, LittleEndian(|text| % U32_LIMIT, 4), text);
    LengthReads(b, pos, |text|, U32_LIMIT, 4);
    TextReads(utf8, b, pos, text);
  }

  lemma ValueRoundTrip(utf8: Utf8Check, b: Bytes, pos: nat, k: Kind, v: Value)
    requires Fits(utf8, k, v) && (v.Text? ==> |v.bytes| < U32_LIMIT) && At(b, pos, EncodeValue(k, v))
    ensures ReadValue(utf8, b, pos, k) == Some((v, pos + |EncodeValue(k, v)|))
  {
    match v {
      case Int(n) => IntRoundTrip(utf8, b, pos, k, n);
      case Float(bits) =>
        Pow256Values();
        ReadsUint(b, pos, bits, 8);
      case Text(text) => TextRoundTrip(utf8, b, pos, text);
    }
  }

  // ---------------------------------------------------------------- null bitmaps

  function Pow2(n: nat): nat {
    if n == 0 then 1 else 2 * Pow2(n - 1)
  }

  /** Shift right by `k`, then the lowest bit. */
  predicate Bit(b: nat, k: nat) {
    if k == 0 then b % 2 == 1 else Bit(b / 2, k - 1)
  }

  /** Or with one shifted left by `k`. */
  function SetBit(b: nat, k: nat): nat {
    if k == 0 then (if b % 2 == 1 then b else b + 1) else 2 * SetBit(b / 2, k - 1) + b % 2
  }

  lemma Halves(b: nat, p: nat)
    requires b < 2 * p
    ensures b / 2 < p && (b % 2 == 0 ==> b + 1 < 2 * p)
    ensures forall half: nat :: half < p ==> 2 * half + b % 2 < 2 * p
  {
  }

  lemma {:induction false} SetBitStays(b: nat, k: nat, n: nat)
    requires b < Pow2(n) && k < n
    ensures SetBit(b, k) < Pow2(n)
  {
    Halves(b, Pow2(n - 1));
    if k > 0 {
      SetBitStays(b / 2, k - 1, n - 1);
    }
  }

  lemma {:induction false} BitAfterSet(b: nat, k: nat, j: nat)
    ensures Bit(SetBit(b, k), j) <==> j == k || Bit(b, j)
  {
    if k > 0 && j > 0 {
      BitAfterSet(b / 2, k - 1, j - 1);
    }
  }

  lemma {:induction false} ZeroHasNoBit(k: nat)
    ensures !Bit(0, k)
  {
    if k > 0 {
      ZeroHasNoBit(k - 1);
    }
  }

  function BitmapLen(columns: nat): nat {
    (columns + 7) / 8
  }

  predicate BitAt(bitmap: Bytes, i: nat)
    requires i / 8 < |bitmap|
  {
    Bit(bitmap[i / 8], i % 8)
  }

  function SetBitAt(bitmap: Bytes, i: nat): (r: Bytes)
    requires i / 8 < |bitmap|
    ensures |r| == |bitmap|
  {
    SetBitStays(bitmap[i / 8], i % 8, 8);
    bitmap[i / 8 := SetBit(bitmap[i / 8], i % 8)]
  }

  lemma BitAtAfterSet(bitmap: Bytes, i: nat, j: nat)
    requires i / 8 < |bitmap| && j / 8 < |bitmap|
    ensures BitAt(SetBitAt(bitmap, i), j) <==> i == j || BitAt(bitmap, j)
  {
    BitAfterSet(bitmap[i / 8], i % 8, j % 8);
  }

  /** The bitmap with the null bits of the first `k` cells set. */
  function NullBits(row: seq<Cell>, k: nat): (r: Bytes)
    requires k <= |row|
    ensures |r| == BitmapLen(|row|)
  {
    if k == 0 then seq(BitmapLen(|row|), _ => 0)
    else
      var m := NullBits(row, k - 1);
      if row[k - 1].None? then SetBitAt(m, k - 1) else m
  }

  lemma {:induction false} NullBitsAt(row: seq<Cell>, k: nat, i: nat)
    requires k <= |row| && i < |row|
    ensures BitAt(NullBits(row, k), i) <==> i < k && row[i].None?
  {
    if k == 0 {
      ZeroHasNoBit(i % 8);
    } else {
      NullBitsAt(row, k - 1, i);
      if row[k - 1].None? {
        BitAtAfterSet(NullBits(row, k - 1), k - 1, i);
      }
    }
  }

  // ---------------------------------------------------------------- cells

  predicate CellFits(utf8: Utf8Check, k: Kind, cell: Cell) {
    cell.Some? ==> Fits(utf8, k, cell.value) && (cell.value.Text? ==> |cell.value.bytes| < U32_LIMIT)
  }

  predicate Representable(k: Kind, cell: Cell) {
    cell.Some? && cell.value.Int? ==> -2 * cell.value.n <= Modulus(k)
  }

  function EncodeCell(k: Kind, cell: Cell): Bytes {
    if cell.Some? && Representable(k, cell) then EncodeValue(k, cell.value) else []
  }

  function ReadCell(utf8: Utf8Check, b: Bytes, pos: nat, k: Kind, isNull: bool): Option<(Cell, nat)> {
    if isNull then Some((None, pos))
    else
      match ReadValue(utf8, b, pos, k)
      case None => None
      case Some((v, next)) => Some((Some(v), next))
  }

  lemma CellRoundTrip(utf8: Utf8Check, b: Bytes, pos: nat, k: Kind, cell: Cell)
    requires CellFits(utf8, k, cell) && At(b, pos, EncodeCell(k, cell))
    ensures ReadCell(utf8, b, pos, k, cell.None?) == Some((cell, pos + |EncodeCell(k, cell)|))
  {
    if cell.Some? {
      ValueRoundTrip(utf8, b, pos, k, cell.value);
    }
  }

  /** What is read fits the column and is within the length limits. */
  lemma ReadCellFits(utf8: Utf8Check, b: Bytes, pos: nat, k: Kind, isNull: bool)
    requires ReadCell(utf8, b, pos, k, isNull).Some?
    ensures var (cell, _) := ReadCell(utf8, b, pos, k, isNull).value; CellFits(utf8, k, cell)
  {
    Pow256Values();
  }

  /** How cells are written and read, as the rows see it. */
  datatype CellFormat = CellFormat(
    encode: (Kind, Cell) -> Bytes,
    read: (Bytes, nat, Kind, bool) -> Option<(Cell, nat)>,
    fits: (Kind, Cell) -> bool)

  function Cells(utf8: Utf8Check): CellFormat {
    CellFormat((k, cell) => EncodeCell(k, cell), (b, pos, k, isNull) => ReadCell(utf8, b, pos, k, isNull),
               (k, cell) => CellFits(utf8, k, cell))
  }

  predicate CellReadsBack(c: CellFormat, b: Bytes, pos: nat, k: Kind, cell: Cell) {
    c.fits(k, cell) && At(b, pos, c.encode(k, cell)) ==>
      c.read(b, pos, k, cell.None?) == Some((cell, pos + |c.encode(k, cell)|))
  }

  predicate CellReadsFitting(c: CellFormat, b: Bytes, pos: nat, k: Kind, isNull: bool) {
    c.read(b, pos, k, isNull).Some? ==> c.fits(k, c.read(b, pos, k, isNull).value.0)
  }

  ghost predicate LawfulCells(c: CellFormat) {
    && (forall b, pos, k, cell :: CellReadsBack(c, b, pos, k, cell))
    && (forall b, pos, k, isNull :: CellReadsFitting(c, b, pos, k, isNull))
  }

  lemma CellsAreLawful(utf8: Utf8Check)
    ensures LawfulCells(Cells(utf8))
  {
    forall b, pos, k, cell
      ensures CellReadsBack(Cells(utf8), b, pos, k, cell)
    {
      if CellFits(utf8, k, cell) && At(b, pos, EncodeCell(k, cell)) {
        CellRoundTrip(utf8, b, pos, k, cell);
      }
    }
    forall b, pos, k, isNull
      ensures CellReadsFitting(Cells(utf8), b, pos, k, isNull)
    {
      if ReadCell(utf8, b, pos, k, isNull).Some? {
        ReadCellFits(utf8, b, pos, k, isNull);
      }
    }
  }

  // ---------------------------------------------------------------- rows

  predicate FitsAt(c: CellFormat, kinds: seq<Kind>, row: seq<Cell>, i: nat)
    requires |row| == |kinds| && i < |row|
  {
    c.fits(kinds[i], row[i])
  }

  predicate RowFits(c: CellFormat, kinds: seq<Kind>, row: seq<Cell>) {
    |row| == |kinds| && forall i :: 0 <= i < |row| ==> FitsAt(c, kinds, row, i)
  }

  /** The values of the cells from `k` on; nulls take no bytes. */
  function EncodeCells(c: CellFormat, kinds: seq<Kind>, row: seq<Cell>, k: nat): Bytes
    requires |row| == |kinds| && k <= |row|
    decreases |row| - k
  {
    if k == |row| then [] else c.encode(kinds[k], row[k]) + EncodeCells(c, kinds, row, k + 1)
  }

  function EncodeRow(c: CellFormat, kinds: seq<Kind>, row: seq<Cell>): Bytes
    requires |row| == |kinds|
  {
    NullBits(row, |row|) + EncodeCells(c, kinds, row, 0)
  }

  function ReadCells(
      c: CellFormat, b: Bytes, pos: nat, kinds: seq<Kind>, bitmap: Bytes, k: nat): Option<(seq<Cell>, nat)>
    requires k <= |kinds| && |bitmap| == BitmapLen(|kinds|)
    decreases |kinds| - k
  {
    if k == |kinds| then Some(([], pos))
    else
      match c.read(b, pos, kinds[k], BitAt(bitmap, k))
      case None => None
      case Some((cell, next)) =>
        match ReadCells(c, b, next, kinds, bitmap, k + 1)
        case None => None
        case Some((rest, end)) => Some(([cell] + rest, end))
  }

  function ReadRow(c: CellFormat, b: Bytes, pos: nat, kinds: seq<Kind>): Option<(seq<Cell>, nat)> {
    match ReadBytes(b, pos, BitmapLen(|kinds|))
    case None => None
    case Some(bitmap) => ReadCells(c, b, pos + BitmapLen(|kinds|), kinds, bitmap, 0)
  }

  /** The bitmap marks the nulls of the row. */
  ghost predicate Marks(bitmap: Bytes, row: seq<Cell>) {
    |bitmap| == BitmapLen(|row|) && forall i {:trigger BitAt(bitmap, i)} :: 0 <= i < |row| ==>
      (BitAt(bitmap, i) <==> row[i].None?)
  }

  lemma NullBitsMark(row: seq<Cell>)
    ensures Marks(NullBits(row, |row|), row)
  {
    forall i | 0 <= i < |row|
      ensures BitAt(NullBits(row, |row|), i) <==> row[i].None?
    {
      NullBitsAt(row, |row|, i);
    }
  }

  lemma {:induction false} CellsRoundTrip(
      c: CellFormat, b: Bytes, pos: nat, kinds: seq<Kind>, bitmap: Bytes, row: seq<Cell>, k: nat)
    requires LawfulCells(c) && RowFits(c, kinds, row) && k <= |row| && At(b, pos, EncodeCells(c, kinds, row, k))
    requires Marks(bitmap, row)
    ensures ReadCells(c, b, pos, kinds, bitmap, k) == Some((row[k..], pos + |EncodeCells(c, kinds, row, k)|))
    decreases |row| - k
  {
    if k < |row| {
      var first := c.encode(kinds[k], row[k]);
      AtParts(b, pos, first, EncodeCells(c, kinds, row, k + 1));
      assert FitsAt(c, kinds, row, k) && CellReadsBack(c, b, pos, kinds[k], row[k]);
      CellsRoundTrip(c, b, pos + |first|, kinds, bitmap, row, k + 1);
      assert row[k..] == [row[k]] + row[k + 1..];
    }
  }

  lemma RowRoundTrip(c: CellFormat, b: Bytes, pos: nat, kinds: seq<Kind>, row: seq<Cell>)
    requires LawfulCells(c) && RowFits(c, kinds, row) && At(b, pos, EncodeRow(c, kinds, row))
    ensures ReadRow(c, b, pos, kinds) == Some((row, pos + |EncodeRow(c, kinds, row)|))
  {
    AtParts(b, pos, NullBits(row, |row|), EncodeCells(c, kinds, row, 0));
    NullBitsMark(row);
    CellsRoundTrip(c, b, pos + BitmapLen(|row|), kinds, NullBits(row, |row|), row, 0);
    assert row[0..] == row;
  }

  lemma {:induction false} ReadCellsFit(c: CellFormat, b: Bytes, pos: nat, kinds: seq<Kind>, bitmap: Bytes, k: nat)
    requires LawfulCells(c) && k <= |kinds| && |bitmap| == BitmapLen(|kinds|) &&
             ReadCells(c, b, pos, kinds, bitmap, k).Some?
    ensures RowFits(c, kinds[k..], ReadCells(c, b, pos, kinds, bitmap, k).value.0)
    decreases |kinds| - k
  {
    if k < |kinds| {
      var (cell, next) := c.read(b, pos, kinds[k], BitAt(bitmap, k)).value;
      assert CellReadsFitting(c, b, pos, kinds[k], BitAt(bitmap, k));
      ReadCellsFit(c, b, next, kinds, bitmap, k + 1);
      RowFitsCons(c, kinds, k, cell, ReadCells(c, b, next, kinds, bitmap, k + 1).value.0);
    }
  }

  lemma RowFitsCons(c: CellFormat, kinds: seq<Kind>, k: nat, cell: Cell, rest: seq<Cell>)
    requires k < |kinds| && c.fits(kinds[k], cell) && RowFits(c, kinds[k + 1..], rest)
    ensures RowFits(c, kinds[k..], [cell] + rest)
  {
    var row := [cell] + rest;
    forall i | 0 <= i < |row|
      ensures FitsAt(c, kinds[k..], row, i)
    {
      if i > 0 {
        assert FitsAt(c, kinds[k + 1..], rest, i - 1);
      }
    }
  }

  lemma ReadRowFits(c: CellFormat, b: Bytes, pos: nat, kinds: seq<Kind>)
    requires LawfulCells(c) && ReadRow(c, b, pos, kinds).Some?
    ensures RowFits(c, kinds, ReadRow(c, b, pos, kinds).value.0)
  {
    var bitmap := ReadBytes(b, pos, BitmapLen(|kinds|)).value;
    ReadCellsFit(c, b, pos + BitmapLen(|kinds|), kinds, bitmap, 0);
    assert kinds[0..] == kinds;
  }

  // ---------------------------------------------------------------- the column table

  datatype Heading = Heading(name: Bytes, kind: Kind)

  predicate HeadingFits(utf8: Utf8Check, h: Heading) {
    utf8(h.name) && |h.name| < U16_LIMIT
  }

  function EncodeHeading(h: Heading): Bytes {
    LittleEndian(|h.name| % U16_LIMIT, 2) + h.name + [Tag(h.kind)]
  }

  function ReadHeading(utf8: Utf8Check, b: Bytes, pos: nat): Option<(Heading, nat)> {
    match ReadUint(b, pos, 2)
    case None => None
    case Some(len) =>
      match ReadBytes(b, pos + 2, len)
      case None => None
      case Some(name) =>
        if !utf8(name) || pos + 2 + len + 1 > |b| || KindOf(b[pos + 2 + len]).None? then None
        else Some((Heading(name, KindOf(b[pos + 2 + len]).value), pos + 2 + len + 1))
  }

  lemma HeadingReads(utf8: Utf8Check, b: Bytes, pos: nat, h: Heading)
    requires utf8(h.name) && ReadUint(b, pos, 2) == Some(|h.name|) && At(b, pos + 2, h.name)
    requires At(b, pos + 2 + |h.name|, [Tag(h.kind)])
    ensures ReadHeading(utf8, b, pos) == Some((h, pos + 2 + |h.name| + 1))
  {
    ByteAt(b, pos + 2 + |h.name|, Tag(h.kind));
  }

  lemma ByteAt(b: Bytes, pos: nat, x: byte)
    requires At(b, pos, [x])
    ensures pos < |b| && b[pos] == x
  {
    assert b[pos] == b[pos..pos + 1][0];
  }

  lemma HeadingRoundTrip(utf8: Utf8Check, b: Bytes, pos: nat, h: Heading)
    requires HeadingFits(utf8, h) && At(b, pos, EncodeHeading(h))
    ensures ReadHeading(utf8, b, pos) == Some((h, pos + |EncodeHeading(h)|))
  {
    Pow256Values();
    ThreeParts(b, pos, LittleEndian(|h.name| % U16_LIMIT, 2), h.name, [Tag(h.kind)]);
    LengthReads(b, pos, |h.name|, U16_LIMIT, 2);
    HeadingReads(utf8, b, pos, h);
  }

  lemma ThreeParts(b: Bytes, pos: nat, x: Bytes, y: Bytes, z: Bytes)
    requires At(b, pos, x + y + z)
    ensures At(b, pos, x) && At(b, pos + |x|, y) && At(b, pos + |x| + |y|, z)
  {
    AtParts(b, pos, x + y, z);
    AtParts(b, pos, x, y);
  }

  lemma ReadHeadingFits(utf8: Utf8Check, b: Bytes, pos: nat)
    requires ReadHeading(utf8, b, pos).Some?
    ensures HeadingFits(utf8, ReadHeading(utf8, b, pos).value.0)
  {
    Pow256Values();
  }

  function Headings(utf8: Utf8Check): Format<Heading> {
    Format(h => EncodeHeading(h), (b, pos) => ReadHeading(utf8, b, pos), h => HeadingFits(utf8, h))
  }

  lemma HeadingsAreLawful(utf8: Utf8Check)
    ensures Lawful(Headings(utf8))
  {
    forall b, pos, h
      ensures ReadsBack(Headings(utf8), b, pos, h)
    {
      if HeadingFits(utf8, h) && At(b, pos, EncodeHeading(h)) {
        HeadingRoundTrip(utf8, b, pos, h);
      }
    }
    forall b, pos
      ensures ReadsFitting(Headings(utf8), b, pos)
    {
      if ReadHeading(utf8, b, pos).Some? {
        ReadHeadingFits(utf8, b, pos);
      }
    }
  }

  function Rows(c: CellFormat, kinds: seq<Kind>): Format<seq<Cell>> {
    Format(row => if |row| == |kinds| then EncodeRow(c, kinds, row) else [],
           (b, pos) => ReadRow(c, b, pos, kinds), row => RowFits(c, kinds, row))
  }

  lemma RowsAreLawful(c: CellFormat, kinds: seq<Kind>)
    requires LawfulCells(c)
    ensures Lawful(Rows(c, kinds))
  {
    forall b, pos, row
      ensures ReadsBack(Rows(c, kinds), b, pos, row)
    {
      if RowFits(c, kinds, row) && At(b, pos, EncodeRow(c, kinds, row)) {
        RowRoundTrip(c, b, pos, kinds, row);
      }
    }
    forall b, pos
      ensures ReadsFitting(Rows(c, kinds), b, pos)
    {
      if ReadRow(c, b, pos, kinds).Some? {
        ReadRowFits(c, b, pos, kinds);
      }
    }
  }

  // ---------------------------------------------------------------- batches

  predicate Rectangular(batch: Batch) {
    forall i :: 0 <= i < |batch.columns| ==> |batch.columns[i].cells| == batch.rows
  }

  function HeadingsOf(batch: Batch): (r: seq<Heading>)
    ensures |r| == |batch.columns|
    ensures forall i :: 0 <= i < |r| ==> r[i] == Heading(batch.columns[i].name, batch.columns[i].kind)
  {
    seq(|batch.columns|, i requires 0 <= i < |batch.columns| => Heading(batch.columns[i].name, batch.columns[i].kind))
  }

  function KindsOf(table: seq<Heading>): (r: seq<Kind>)
    ensures |r| == |table| && forall i :: 0 <= i < |r| ==> r[i] == table[i].kind
  {
    seq(|table|, i requires 0 <= i < |table| => table[i].kind)
  }

  function RowOf(batch: Batch, r: nat): (row: seq<Cell>)
    requires Rectangular(batch) && r < batch.rows
    ensures |row| == |batch.columns| && forall i :: 0 <= i < |row| ==> row[i] == batch.columns[i].cells[r]
  {
    seq(|batch.columns|, i requires 0 <= i < |batch.columns| => batch.columns[i].cells[r])
  }

  function RowsOf(batch: Batch): (rows: seq<seq<Cell>>)
    requires Rectangular(batch)
    ensures |rows| == batch.rows && forall r :: 0 <= r < |rows| ==> rows[r] == RowOf(batch, r)
  {
    seq(batch.rows, r requires 0 <= r < batch.rows => RowOf(batch, r))
  }

  function Header(columns: nat, rows: nat): Bytes {
    MAGIC + (LittleEndian(columns % U16_LIMIT, 2) + LittleEndian(rows % U32_LIMIT, 4))
  }

  /** Counts are truncated to their fields. With rows to write, a truncated column count leaves
      the bitmap too short, and the encoder indexes past its end. */
  function Encode(utf8: Utf8Check, batch: Batch): Option<Bytes> {
    if !Rectangular(batch) || (|batch.columns| >= U16_LIMIT && batch.rows > 0) then None
    else
      var table := HeadingsOf(batch);
      Some(Header(|batch.columns|, batch.rows) +
           (EncodeFrom(Headings(utf8), table, 0) + EncodeFrom(Rows(Cells(utf8), KindsOf(table)), RowsOf(batch), 0)))
  }

  /** Column `i` of rows that are as wide as the table. */
  function ColumnOf(table: seq<Heading>, rows: seq<seq<Cell>>, i: nat): Column
    requires i < |table| && forall r :: 0 <= r < |rows| ==> |rows[r]| == |table|
  {
    Column(table[i].name, table[i].kind, seq(|rows|, r requires 0 <= r < |rows| => rows[r][i]))
  }

  function Assemble(table: seq<Heading>, rows: seq<seq<Cell>>): Batch
    requires forall r :: 0 <= r < |rows| ==> |rows[r]| == |table|
  {
    if table == [] then Batch([], 0)
    else Batch(seq(|table|, i requires 0 <= i < |table| => ColumnOf(table, rows, i)), |rows|)
  }

  predicate AsWide(table: seq<Heading>, rows: seq<seq<Cell>>) {
    forall r :: 0 <= r < |rows| ==> |rows[r]| == |table|
  }

  function ReadBody(utf8: Utf8Check, b: Bytes, columns: nat, count: nat): Option<Batch> {
    match ReadMany(Headings(utf8), b, 9, columns)
    case None => None
    case Some((table, pos)) =>
      match ReadMany(Rows(Cells(utf8), KindsOf(table)), b, pos, count)
      case None => None
      case Some((rows, _)) => if AsWide(table, rows) then Some(Assemble(table, rows)) else None
  }

  /** Bytes after the last row are not looked at. */
  function Decode(utf8: Utf8Check, b: Bytes): Option<Batch> {
    if |b| < 3 || b[..3] != MAGIC then None
    else
      match ReadUint(b, 3, 2)
      case None => None
      case Some(columns) =>
        match ReadUint(b, 5, 4)
        case None => None
        case Some(count) => ReadBody(utf8, b, columns, count)
  }

  /** Every cell and name is one its type can hold. */
  ghost predicate WellTyped(utf8: Utf8Check, batch: Batch) {
    && Rectangular(batch)
    && (forall i :: 0 <= i < |batch.columns| ==> utf8(batch.columns[i].name))
    && (forall i, r :: 0 <= i < |batch.columns| && 0 <= r < batch.rows ==> TypedAt(utf8, batch, i, r))
  }

  predicate TypedAt(utf8: Utf8Check, batch: Batch, i: nat, r: nat)
    requires Rectangular(batch) && i < |batch.columns| && r < batch.rows
  {
    batch.columns[i].cells[r].Some? ==> Fits(utf8, batch.columns[i].kind, batch.columns[i].cells[r].value)
  }

  /** The counts and lengths fit their fields, and there are no rows without columns. */
  ghost predicate WithinLimits(batch: Batch)
    requires Rectangular(batch)
  {
    && |batch.columns| < U16_LIMIT && batch.rows < U32_LIMIT && (batch.columns == [] ==> batch.rows == 0)
    && (forall i :: 0 <= i < |batch.columns| ==> |batch.columns[i].name| < U16_LIMIT)
    && (forall i, r :: 0 <= i < |batch.columns| && 0 <= r < batch.rows ==> ShortAt(batch, i, r))
  }

  predicate ShortAt(batch: Batch, i: nat, r: nat)
    requires Rectangular(batch) && i < |batch.columns| && r < batch.rows
  {
    var cell := batch.columns[i].cells[r];
    cell.Some? && cell.value.Text? ==> |cell.value.bytes| < U32_LIMIT
  }

  lemma RowsOfFit(utf8: Utf8Check, batch: Batch)
    requires WellTyped(utf8, batch) && WithinLimits(batch)
    ensures AllFit(Rows(Cells(utf8), KindsOf(HeadingsOf(batch))), RowsOf(batch))
  {
    var kinds := KindsOf(HeadingsOf(batch));
    forall r | 0 <= r < batch.rows
      ensures RowFits(Cells(utf8), kinds, RowsOf(batch)[r])
    {
      var row := RowOf(batch, r);
      forall i | 0 <= i < |row|
        ensures FitsAt(Cells(utf8), kinds, row, i)
      {
        assert TypedAt(utf8, batch, i, r) && ShortAt(batch, i, r);
      }
    }
  }

  lemma AssembleInverts(batch: Batch)
    requires Rectangular(batch) && (batch.columns == [] ==> batch.rows == 0)
    ensures AsWide(HeadingsOf(batch), RowsOf(batch)) && Assemble(HeadingsOf(batch), RowsOf(batch)) == batch
  {
    var table, rows := HeadingsOf(batch), RowsOf(batch);
    forall i | 0 <= i < |table|
      ensures ColumnOf(table, rows, i) == batch.columns[i]
    {
      assert ColumnOf(table, rows, i).cells == batch.columns[i].cells;
    }
  }

  lemma ReadsHeader(b: Bytes, columns: nat, rows: nat)
    requires columns < U16_LIMIT && rows < U32_LIMIT && At(b, 0, Header(columns, rows))
    ensures |b| >= 9 && b[..3] == MAGIC && ReadUint(b, 3, 2) == Some(columns) && ReadUint(b, 5, 4) == Some(rows)
  {
    Pow256Values();
    AtParts(b, 0, MAGIC, LittleEndian(columns, 2) + LittleEndian(rows, 4));
    AtParts(b, 3, LittleEndian(columns, 2), LittleEndian(rows, 4));
    ReadsUint(b, 3, columns, 2);
    ReadsUint(b, 5, rows, 4);
  }

  lemma ReadsBody(utf8: Utf8Check, b: Bytes, batch: Batch)
    requires WellTyped(utf8, batch) && WithinLimits(batch)
    requires At(b, 9, EncodeFrom(Headings(utf8), HeadingsOf(batch), 0) +
                      EncodeFrom(Rows(Cells(utf8), KindsOf(HeadingsOf(batch))), RowsOf(batch), 0))
    ensures ReadBody(utf8, b, |batch.columns|, batch.rows) == Some(batch)
  {
    var table, rows := HeadingsOf(batch), RowsOf(batch);
    HeadingsFit(utf8, batch);
    RowsOfFit(utf8, batch);
    FormatsAreLawful(utf8, KindsOf(table));
    ReadsTwo(Headings(utf8), Rows(Cells(utf8), KindsOf(table)), b, 9, table, rows);
    AssembleInverts(batch);
  }

  lemma FormatsAreLawful(utf8: Utf8Check, kinds: seq<Kind>)
    ensures Lawful(Headings(utf8)) && Lawful(Rows(Cells(utf8), kinds))
  {
    HeadingsAreLawful(utf8);
    CellsAreLawful(utf8);
    RowsAreLawful(Cells(utf8), kinds);
  }

  lemma HeadingsFit(utf8: Utf8Check, batch: Batch)
    requires WellTyped(utf8, batch) && WithinLimits(batch)
    ensures AllFit(Headings(utf8), HeadingsOf(batch))
  {
  }

  lemma ReadsTwo<S(!new), T(!new)>(f: Format<S>, g: Format<T>, b: Bytes, pos: nat, xs: seq<S>, ys: seq<T>)
    requires Lawful(f) && Lawful(g) && AllFit(f, xs) && AllFit(g, ys)
    requires At(b, pos, EncodeFrom(f, xs, 0) + EncodeFrom(g, ys, 0))
    ensures var next := pos + |EncodeFrom(f, xs, 0)|;
            ReadMany(f, b, pos, |xs|) == Some((xs, next)) &&
              ReadMany(g, b, next, |ys|) == Some((ys, next + |EncodeFrom(g, ys, 0)|))
  {
    AtParts(b, pos, EncodeFrom(f, xs, 0), EncodeFrom(g, ys, 0));
    ManyRoundTrip(f, b, pos, xs, 0);
    ManyRoundTrip(g, b, pos + |EncodeFrom(f, xs, 0)|, ys, 0);
    assert xs[0..] == xs && ys[0..] == ys;
  }

  /** A batch within the limits is read back from its encoding, whatever follows it. */
  lemma BatchRoundTrip(utf8: Utf8Check, batch: Batch, rest: Bytes)
    requires WellTyped(utf8, batch) && WithinLimits(batch)
    ensures Encode(utf8, batch).Some? && Decode(utf8, Encode(utf8, batch).value + rest) == Some(batch)
  {
    var table := HeadingsOf(batch);
    var body := EncodeFrom(Headings(utf8), table, 0) + EncodeFrom(Rows(Cells(utf8), KindsOf(table)), RowsOf(batch), 0);
    var header := Header(|batch.columns|, batch.rows);
    var b := header + body + rest;
    assert At(b, 0, header + body);
    AtParts(b, 0, header, body);
    ReadsHeader(b, |batch.columns|, batch.rows);
    ReadsBody(utf8, b, batch);
  }

  // ---------------------------------------------------------------- exactly within the limits

  lemma AssembledShort(utf8: Utf8Check, table: seq<Heading>, rows: seq<seq<Cell>>)
    requires AllFit(Headings(utf8), table) && AllFit(Rows(Cells(utf8), KindsOf(table)), rows) && AsWide(table, rows)
    requires |table| < U16_LIMIT && |rows| < U32_LIMIT
    ensures Rectangular(Assemble(table, rows)) && WithinLimits(Assemble(table, rows))
  {
    var batch := Assemble(table, rows);
    forall i, r | 0 <= i < |batch.columns| && 0 <= r < batch.rows
      ensures ShortAt(batch, i, r)
    {
      assert RowFits(Cells(utf8), KindsOf(table), rows[r]);
      assert FitsAt(Cells(utf8), KindsOf(table), rows[r], i);
    }
  }

  /** Whatever is decoded is within the limits. */
  lemma DecodedIsWithinLimits(utf8: Utf8Check, b: Bytes)
    requires Decode(utf8, b).Some?
    ensures Rectangular(Decode(utf8, b).value) && WithinLimits(Decode(utf8, b).value)
  {
    Pow256Values();
    var columns, count := ReadUint(b, 3, 2).value, ReadUint(b, 5, 4).value;
    var (table, pos) := ReadMany(Headings(utf8), b, 9, columns).value;
    FormatsAreLawful(utf8, KindsOf(table));
    ManyFit(Headings(utf8), b, 9, columns);
    ManyFit(Rows(Cells(utf8), KindsOf(table)), b, pos, count);
    AssembledShort(utf8, table, ReadMany(Rows(Cells(utf8), KindsOf(table)), b, pos, count).value.0);
  }

  /** A batch survives encoding and decoding exactly when it is within the limits. */
  lemma SurvivesIff(utf8: Utf8Check, batch: Batch, rest: Bytes)
    requires WellTyped(utf8, batch)
    ensures (Encode(utf8, batch).Some? && Decode(utf8, Encode(utf8, batch).value + rest) == Some(batch)) <==>
              WithinLimits(batch)
  {
    if WithinLimits(batch) {
      BatchRoundTrip(utf8, batch, rest);
    } else if Encode(utf8, batch).Some? && Decode(utf8, Encode(utf8, batch).value + rest) == Some(batch) {
      DecodedIsWithinLimits(utf8, Encode(utf8, batch).value + rest);
    }
  }

  /** No encoding is a prefix of another batch's. */
  lemma EncodingsArePrefixFree(utf8: Utf8Check, a: Batch, b: Batch)
    requires WellTyped(utf8, a) && WithinLimits(a) && WellTyped(utf8, b) && WithinLimits(b)
    requires Encode(utf8, a).Some? && Encode(utf8, b).Some? && Encode(utf8, a).value <= Encode(utf8, b).value
    ensures a == b
  {
    var x, y := Encode(utf8, a).value, Encode(utf8, b).value;
    BatchRoundTrip(utf8, a, y[|x|..]);
    BatchRoundTrip(utf8, b, []);
    SameDecoding(utf8, x, y, a, b);
  }

  lemma SameDecoding(utf8: Utf8Check, x: Bytes, y: Bytes, a: Batch, b: Batch)
    requires x <= y && Decode(utf8, x + y[|x|..]) == Some(a) && Decode(utf8, y + []) == Some(b)
    ensures a == b
  {
    assert x + y[|x|..] == y == y + [];
  }

  // ---------------------------------------------------------------- the encoder

  predicate NullIsEmpty(c: CellFormat, k: Kind) {
    c.encode(k, None) == []
  }

  /** Sets the null bits, then writes the values of the cells that are not null. */
  method WriteRow(c: CellFormat, kinds: seq<Kind>, row: seq<Cell>, buf: Bytes) returns (r: Bytes)
    requires |row| == |kinds| && forall k :: NullIsEmpty(c, k)
    ensures r == buf + Rows(c, kinds).encode(row)
  {
    var bitmap: Bytes := seq(BitmapLen(|row|), _ => 0);
    for k := 0 to |row|
      invariant bitmap == NullBits(row, k)
    {
      if row[k].None? {
        bitmap := SetBitAt(bitmap, k);
      }
    }
    var values: Bytes := [];
    ghost var whole := EncodeCells(c, kinds, row, 0);
    assert [] + whole == whole;
    for k := 0 to |row|
      invariant values + EncodeCells(c, kinds, row, k) == whole
    {
      NullBitsAt(row, |row|, k);
      Assoc(values, c.encode(kinds[k], row[k]), EncodeCells(c, kinds, row, k + 1));
      if !BitAt(bitmap, k) {
        values := values + c.encode(kinds[k], row[k]);
      } else {
        assert NullIsEmpty(c, kinds[k]);
        assert values + [] == values;
      }
    }
    assert values + [] == values;
    r := buf + (bitmap + values);
  }

  method WriteTable(utf8: Utf8Check, table: seq<Heading>, buf: Bytes) returns (r: Bytes)
    ensures r == buf + EncodeFrom(Headings(utf8), table, 0)
  {
    r := buf;
    for k := 0 to |table|
      invariant r + EncodeFrom(Headings(utf8), table, k) == buf + EncodeFrom(Headings(utf8), table, 0)
    {
      EncodeStep(Headings(utf8), table, k, r, buf + EncodeFrom(Headings(utf8), table, 0));
      r := r + EncodeHeading(table[k]);
    }
    assert r + [] == r;
  }

  method WriteRows(c: CellFormat, kinds: seq<Kind>, rows: seq<seq<Cell>>, buf: Bytes) returns (r: Bytes)
    requires (forall i :: 0 <= i < |rows| ==> |rows[i]| == |kinds|) && forall k :: NullIsEmpty(c, k)
    ensures r == buf + EncodeFrom(Rows(c, kinds), rows, 0)
  {
    ghost var f := Rows(c, kinds);
    r := buf;
    for k := 0 to |rows|
      invariant r + EncodeFrom(f, rows, k) == buf + EncodeFrom(f, rows, 0)
    {
      EncodeStep(f, rows, k, r, buf + EncodeFrom(f, rows, 0));
      r := WriteRow(c, kinds, rows[k], r);
    }
    assert r + [] == r;
  }

  method EncodeBatch(utf8: Utf8Check, batch: Batch) returns (r: Option<Bytes>)
    ensures r == Encode(utf8, batch)
  {
    for i := 0 to |batch.columns|
      invariant forall j :: 0 <= j < i ==> |batch.columns[j].cells| == batch.rows
    {
      if |batch.columns[i].cells| != batch.rows {
        return None;
      }
    }
    if |batch.columns| >= U16_LIMIT && batch.rows > 0 {
      return None;
    }
    var table := HeadingsOf(batch);
    var buf := Header(|batch.columns|, batch.rows);
    buf := WriteTable(utf8, table, buf);
    assert forall k :: NullIsEmpty(Cells(utf8), k);
    buf := WriteRows(Cells(utf8), KindsOf(table), RowsOf(batch), buf);
    Assoc(Header(|batch.columns|, batch.rows), EncodeFrom(Headings(utf8), table, 0),
      EncodeFrom(Rows(Cells(utf8), KindsOf(table)), RowsOf(batch), 0));
    r := Some(buf);
  }

  // ---------------------------------------------------------------- the decoder

  /** The column accumulators after one more row. */
  function PushRow(data: seq<seq<Cell>>, row: seq<Cell>, k: nat): (r: seq<seq<Cell>>)
    requires k <= |row| && k <= |data|
    ensures |r| == |data| && forall i :: 0 <= i < |r| ==> r[i] == if i < k then data[i] + [row[i]] else data[i]
  {
    seq(|data|, i requires 0 <= i < |data| => if i < k then data[i] + [row[i]] else data[i])
  }

  lemma PushNext(data: seq<seq<Cell>>, row: seq<Cell>, k: nat, cell: Cell)
    requires |row| == k < |data|
    ensures PushRow(data, row, k)[k := PushRow(data, row, k)[k] + [cell]] == PushRow(data, row + [cell], k + 1)
  {
  }

  /** Reads the bitmap, then a cell for each column, which is pushed onto its accumulator. */
  method ReadRowInto(c: CellFormat, b: Bytes, start: nat, kinds: seq<Kind>, data: seq<seq<Cell>>)
    returns (r: Option<(seq<seq<Cell>>, nat)>, ghost row: seq<Cell>)
    requires |data| == |kinds|
    ensures r.None? <==> Rows(c, kinds).read(b, start).None?
    ensures r.Some? ==> |row| == |kinds| && Rows(c, kinds).read(b, start) == Some((row, r.value.1))
    ensures r.Some? ==> r.value.0 == PushRow(data, row, |row|)
  {
    row := [];
    if start + BitmapLen(|kinds|) > |b| {
      return None, row;
    }
    var bitmap := b[start..start + BitmapLen(|kinds|)];
    var pos: nat := start + BitmapLen(|kinds|);
    var pushed := data;
    PrependNothing(ReadCells(c, b, pos, kinds, bitmap, 0));
    assert PushRow(data, row, 0) == data;
    for k := 0 to |kinds|
      invariant |row| == k && pushed == PushRow(data, row, k)
      invariant Prepend(row, ReadCells(c, b, pos, kinds, bitmap, k)) == ReadRow(c, b, start, kinds)
    {
      var cell := c.read(b, pos, kinds[k], BitAt(bitmap, k));
      if cell.None? {
        return None, row;
      }
      PushNext(data, row, k, cell.value.0);
      PrependOne(row, cell.value.0, ReadCells(c, b, cell.value.1, kinds, bitmap, k + 1));
      pushed := pushed[k := pushed[k] + [cell.value.0]];
      row := row + [cell.value.0];
      pos := cell.value.1;
    }
    assert row + [] == row;
    r := Some((pushed, pos));
  }

  ghost predicate Transposed(rows: seq<seq<Cell>>, width: nat, data: seq<seq<Cell>>) {
    && |data| == width && (forall r :: 0 <= r < |rows| ==> |rows[r]| == width)
    && forall i :: 0 <= i < |data| ==> |data[i]| == |rows| && forall r :: 0 <= r < |rows| ==> data[i][r] == rows[r][i]
  }

  lemma TransposedNext(rows: seq<seq<Cell>>, width: nat, data: seq<seq<Cell>>, row: seq<Cell>)
    requires Transposed(rows, width, data) && |row| == width
    ensures Transposed(rows + [row], width, PushRow(data, row, width))
  {
  }

  /** Reads the rows one after another into the column accumulators. */
  /** The format of the rows, with what `ReadRowInto` says of it. */
  ghost predicate IsRowFormat(f: Format<seq<Cell>>, c: CellFormat, kinds: seq<Kind>) {
    forall b, pos {:trigger Rows(c, kinds).read(b, pos)} :: f.read(b, pos) == Rows(c, kinds).read(b, pos)
  }

  method ReadNextRow(
      ghost f: Format<seq<Cell>>, c: CellFormat, b: Bytes, start: nat, kinds: seq<Kind>, data: seq<seq<Cell>>)
    returns (r: Option<(seq<seq<Cell>>, nat)>, ghost row: seq<Cell>)
    requires |data| == |kinds| && IsRowFormat(f, c, kinds)
    ensures r.None? <==> f.read(b, start).None?
    ensures r.Some? ==> |row| == |kinds| && f.read(b, start) == Some((row, r.value.1))
    ensures r.Some? ==> r.value.0 == PushRow(data, row, |row|)
  {
    r, row := ReadRowInto(c, b, start, kinds, data);
    assert f.read(b, start) == Rows(c, kinds).read(b, start);
  }

  method ReadRowsInto(c: CellFormat, b: Bytes, start: nat, kinds: seq<Kind>, count: nat)
    returns (r: Option<seq<seq<Cell>>>, ghost rows: seq<seq<Cell>>)
    ensures r.None? <==> ReadMany(Rows(c, kinds), b, start, count).None?
    ensures r.Some? ==> |rows| == count && ReadMany(Rows(c, kinds), b, start, count).value.0 == rows
    ensures r.Some? ==> Transposed(rows, |kinds|, r.value)
  {
    r, rows := ReadRowsOf(Rows(c, kinds), c, b, start, kinds, count);
  }

  method ReadRowsOf(ghost f: Format<seq<Cell>>, c: CellFormat, b: Bytes, start: nat, kinds: seq<Kind>, count: nat)
    returns (r: Option<seq<seq<Cell>>>, ghost rows: seq<seq<Cell>>)
    requires IsRowFormat(f, c, kinds)
    ensures r.None? <==> ReadMany(f, b, start, count).None?
    ensures r.Some? ==> |rows| == count && ReadMany(f, b, start, count).value.0 == rows
    ensures r.Some? ==> Transposed(rows, |kinds|, r.value)
  {
    ghost var whole := ReadMany(f, b, start, count);
    var data: seq<seq<Cell>> := seq(|kinds|, _ => []);
    var pos: nat := start;
    rows := [];
    PrependNothing(whole);
    for k := 0 to count
      invariant |rows| == k && Transposed(rows, |kinds|, data)
      invariant Prepend(rows, ReadMany(f, b, pos, count - k)) == whole
    {
      ghost var row, before := [], pos;
      var pushed;
      pushed, row := ReadNextRow(f, c, b, pos, kinds, data);
      ReadStep(f, b, before, count - k, rows, whole);
      if pushed.None? {
        return None, rows;
      }
      TransposedNext(rows, |kinds|, data, row);
      data := pushed.value.0;
      pos := pushed.value.1;
      rows := rows + [row];
    }
    assert rows + [] == rows;
    r := Some(data);
  }

  lemma TransposedAssembles(table: seq<Heading>, rows: seq<seq<Cell>>, data: seq<seq<Cell>>)
    requires Transposed(rows, |table|, data) && table != []
    ensures AsWide(table, rows)
    ensures Assemble(table, rows) ==
              Batch(seq(|table|, i requires 0 <= i < |table| => Column(table[i].name, table[i].kind, data[i])),
                    |data[0]|)
  {
    forall i | 0 <= i < |table|
      ensures Column(table[i].name, table[i].kind, data[i]) == ColumnOf(table, rows, i)
    {
      assert data[i] == ColumnOf(table, rows, i).cells;
    }
  }

  method DecodeBatch(utf8: Utf8Check, b: Bytes) returns (r: Option<Batch>)
    ensures r == Decode(utf8, b)
  {
    if |b| < 3 || b[..3] != MAGIC {
      return None;
    }
    var columns := ReadUint(b, 3, 2);
    if columns.None? {
      return None;
    }
    var count := ReadUint(b, 5, 4);
    if count.None? {
      return None;
    }
    var table := ReadAll(Headings(utf8), b, 9, columns.value);
    if table.None? {
      return None;
    }
    var data;
    ghost var rows;
    data, rows := ReadRowsInto(Cells(utf8), b, table.value.1, KindsOf(table.value.0), count.value);
    if data.None? {
      return None;
    }
    if table.value.0 == [] {
      return Some(Batch([], 0));
    }
    TransposedAssembles(table.value.0, rows, data.value);
    var headings := table.value.0;
    r := Some(Batch(
      seq(|headings|, i requires 0 <= i < |headings| => Column(headings[i].name, headings[i].kind, data.value[i])),
      |data.value[0]|));
  }
}
