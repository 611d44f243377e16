/** The byte layout of heap pages. */
module PageCodec {
  import opened Values
  import opened ByteStreams

  /** A column value as it is stored: doubles by their bit pattern, text by its
      bytes.  Composite keys occur only in indexes. */
  datatype Cell =
    | NullCell
    | IntCell(n: int)
    | DoubleCell(bits: int)
    | TextCell(bytes: Bytes)
    | CompositeCell(parts: seq<Cell>)

  type StoredRow = seq<Cell>

  const NULL_TAG := 255
  const COMPOSITE_TAG := 254
  const INT_TAG := 0
  const DOUBLE_TAG := 1
  const TEXT_TAG := 2

  /** What the fixed-width types of the program can hold. */
  predicate PlainOk(c: Cell) {
    match c
    case NullCell => true
    case IntCell(n) => -TWO64 / 2 <= n < TWO64 / 2
    case DoubleCell(bits) => 0 <= bits < TWO64
    case TextCell(bytes) => |bytes| < TWO64
    case CompositeCell(_) => false
  }

  function EncodePlain(c: Cell): Bytes
    requires !c.CompositeCell?
  {
    match c
    case NullCell => LE(NULL_TAG, 1) + []
    case IntCell(n) => LE(INT_TAG, 1) + LE(n, 8)
    case DoubleCell(bits) => LE(DOUBLE_TAG, 1) + LE(bits, 8)
    case TextCell(bytes) => LE(TEXT_TAG, 1) + (LE(|bytes|, 8) + bytes)
  }

  function MakeInt(u: int): Cell {
    IntCell(Signed(u))
  }

  function MakeDouble(u: int): Cell {
    DoubleCell(u)
  }

  function MakeText(bytes: Bytes): Cell {
    TextCell(bytes)
  }

  function PlainBody(tag: int): Reader<Cell> {
    if tag == NULL_TAG then Pure(NullCell)
    else if tag == INT_TAG then Map(Fixed(8), MakeInt)
    else if tag == DOUBLE_TAG then Map(Fixed(8), MakeDouble)
    else if tag == TEXT_TAG then Map(Text(), MakeText)
    else Reject()
  }

  /** `readValue` of the page format. */
  function PlainCell(): Reader<Cell> {
    Bind(Fixed(1), PlainBody)
  }

  lemma IntReads(n: int)
    requires -TWO64 / 2 <= n < TWO64 / 2
    ensures Reads(Map(Fixed(8), MakeInt), LE(n, 8), IntCell(n))
  {
    hide LE, Pow256, FromLE;
    Widths();
    var u := if n >= 0 then n else n + TWO64;
    WrapAround(n, 8);
    FixedReads(u, 8);
    MapReads(Fixed(8), MakeInt, LE(n, 8), u);
  }

  function TagOf(c: Cell): int {
    match c
    case NullCell => NULL_TAG
    case IntCell(_) => INT_TAG
    case DoubleCell(_) => DOUBLE_TAG
    case TextCell(_) => TEXT_TAG
    case CompositeCell(_) => COMPOSITE_TAG
  }

  function BodyOf(c: Cell): Bytes
    requires !c.CompositeCell?
  {
    match c
    case NullCell => []
    case IntCell(n) => LE(n, 8)
    case DoubleCell(bits) => LE(bits, 8)
    case TextCell(bytes) => LE(|bytes|, 8) + bytes
  }

  lemma PlainBodyReads(c: Cell)
    requires PlainOk(c)
    ensures Reads(PlainBody(TagOf(c)), BodyOf(c), c) && EncodePlain(c) == LE(TagOf(c), 1) + BodyOf(c)
  {
    hide LE, Pow256, FromLE;
    match c {
      case NullCell => PureReads(NullCell);
      case IntCell(n) => IntReads(n);
      case DoubleCell(bits) =>
        Widths();
        FixedReads(bits, 8);
        MapReads(Fixed(8), MakeDouble, LE(bits, 8), bits);
      case TextCell(bytes) =>
        TextReads(bytes);
        MapReads(Text(), MakeText, LE(|bytes|, 8) + bytes, bytes);
    }
  }

  lemma PlainReads(c: Cell)
    requires PlainOk(c)
    ensures Reads(PlainCell(), EncodePlain(c), c)
  {
    hide LE, Pow256, FromLE, BodyOf, EncodePlain, PlainBody;
    Widths();
    PlainBodyReads(c);
    FixedReads(TagOf(c), 1);
    BindReads(Fixed(1), PlainBody, LE(TagOf(c), 1), TagOf(c), BodyOf(c), c);
  }

  // ----- Rows and pages -------------------------------------------------------------------

  predicate RowOk(row: StoredRow) {
    |row| < TWO64 && forall i :: 0 <= i < |row| ==> PlainOk(row[i])
  }

  predicate RowsOk(rows: seq<StoredRow>) {
    |rows| < TWO64 && forall i :: 0 <= i < |rows| ==> RowOk(rows[i])
  }

  function EncodeCells(row: StoredRow): seq<Bytes>
    requires RowOk(row)
  {
    seq(|row|, i requires 0 <= i < |row| => EncodePlain(row[i]))
  }

  function EncodeRow(row: StoredRow): Bytes
    requires RowOk(row)
  {
    LE(|row|, 8) + Concat(EncodeCells(row))
  }

  function EncodeRows(rows: seq<StoredRow>): seq<Bytes>
    requires RowsOk(rows)
  {
    seq(|rows|, i requires 0 <= i < |rows| => EncodeRow(rows[i]))
  }

  /** `serializePage`. */
  function EncodePage(rows: seq<StoredRow>): Bytes
    requires RowsOk(rows)
  {
    LE(|rows|, 8) + Concat(EncodeRows(rows))
  }

  function PageReader(): Reader<seq<StoredRow>> {
    Counted(Counted(PlainCell()))
  }

  /** `decodePage`; bytes after the last row are ignored. */
  function DecodePage(bytes: Bytes): Option<seq<StoredRow>> {
    match PageReader()(bytes)
    case Bad => None
    case Got(rows, _) => Some(rows)
  }

  lemma RowReads(row: StoredRow)
    requires RowOk(row)
    ensures Reads(Counted(PlainCell()), EncodeRow(row), row)
  {
    forall i | 0 <= i < |row| ensures Reads(PlainCell(), EncodeCells(row)[i], row[i]) {
      PlainReads(row[i]);
    }
    CountedReads(PlainCell(), EncodeCells(row), row);
  }

  /** Decoding a page gives its rows back, and a page cut short is rejected. */
  lemma PageRoundTrip(rows: seq<StoredRow>)
    requires RowsOk(rows)
    ensures DecodePage(EncodePage(rows)) == Some(rows)
    ensures forall cut: Bytes :: cut <= EncodePage(rows) && cut != EncodePage(rows) ==> DecodePage(cut) == None
  {
    hide LE, EncodeRow, RowOk;
    forall i | 0 <= i < |rows| ensures Reads(Counted(PlainCell()), EncodeRows(rows)[i], rows[i]) {
      RowReads(rows[i]);
    }
    CountedReads(Counted(PlainCell()), EncodeRows(rows), rows);
    assert EncodePage(rows) + [] == EncodePage(rows);
  }

  // ----- As the program does it -------------------------------------------------------------

  lemma {:induction false} ConcatAppend(parts: seq<Bytes>, part: Bytes)
    ensures Concat(parts + [part]) == Concat(parts) + part
  {
    if parts == [] {
      assert parts + [part] == [part];
      assert Concat([part]) == part + Concat([]);
    } else {
      assert (parts + [part])[1..] == parts[1..] + [part];
      ConcatAppend(parts[1..], part);
    }
  }

  lemma NothingConcat()
    ensures Concat([]) == []
  {
  }

  method AppendRow(start: Bytes, row: StoredRow) returns (bytes: Bytes)
    requires RowOk(row)
    ensures bytes == start + EncodeRow(row)
  {
    hide LE, EncodePlain, Concat;
    bytes := start + LE(|row|, 8);
    NothingConcat();
    ghost var cells: seq<Bytes> := [];
    for j := 0 to |row|
      invariant cells == EncodeCells(row)[..j] && bytes == start + (LE(|row|, 8) + Concat(cells))
    {
      bytes := bytes + EncodePlain(row[j]);
      ConcatAppend(cells, EncodePlain(row[j]));
      cells := cells + [EncodePlain(row[j])];
    }
    assert cells == EncodeCells(row);
  }

  method SerializePage(rows: seq<StoredRow>) returns (bytes: Bytes)
    requires RowsOk(rows)
    ensures bytes == EncodePage(rows)
  {
    hide LE, EncodePlain, PlainOk, Concat;
    bytes := LE(|rows|, 8);
    NothingConcat();
    ghost var done: seq<Bytes> := [];
    for i := 0 to |rows|
      invariant done == EncodeRows(rows)[..i] && bytes == LE(|rows|, 8) + Concat(done)
    {
      bytes := AppendRow(bytes, rows[i]);
      ConcatAppend(done, EncodeRow(rows[i]));
      done := done + [EncodeRow(rows[i])];
    }
    assert done == EncodeRows(rows);
  }

  /** Items already read, put in front of those still to come. */
  function Before<T>(done: seq<T>, r: Parsed<seq<T>>): Parsed<seq<T>> {
    match r
    case Bad => Bad
    case Got(vs, rest) => Got(done + vs, rest)
  }

  lemma ManyStep<T>(read: Reader<T>, n: int, done: seq<T>, b: Bytes)
    requires n > 0
    ensures Before(done, Many(read, n)(b)) ==
      match read(b)
      case Bad => Bad
      case Got(x, rest) => Before(done + [x], Many(read, n - 1)(rest))
  {
    match read(b)
    case Bad =>
    case Got(x, rest) =>
      match Many(read, n - 1)(rest)
      case Bad =>
      case Got(xs, _) => assert done + ([x] + xs) == done + [x] + xs;
  }

  method ReadMany<T>(read: Reader<T>, n: int, input: Bytes) returns (r: Parsed<seq<T>>)
    ensures r == Many(read, n)(input)
  {
    var done: seq<T>, cursor, i := [], input, 0;
    assert Before(done, Many(read, n)(input)) == Many(read, n)(input) by {
      NothingBefore(Many(read, n)(input));
    }
    while i < n
      invariant i <= n || n < 0 <= i == 0
      invariant Before(done, Many(read, n - i)(cursor)) == Many(read, n)(input)
    {
      ManyStep(read, n - i, done, cursor);
      var item := read(cursor);
      if item.Bad? {
        return Bad;
      }
      done, cursor, i := done + [item.value], item.rest, i + 1;
    }
    assert Many(read, n - i)(cursor) == Got([], cursor) && done + [] == done;
    return Got(done, cursor);
  }

  lemma NothingBefore<T>(r: Parsed<seq<T>>)
    ensures Before([], r) == r
  {
    match r
    case Bad =>
    case Got(vs, _) => assert [] + vs == vs;
  }

  method ReadPage(bytes: Bytes) returns (rows: Option<seq<StoredRow>>)
    ensures rows == DecodePage(bytes)
  {
    var count := Fixed(8)(bytes);
    if count.Bad? {
      return None;
    }
    var r := ReadMany(Counted(PlainCell()), count.value, count.rest);
    return if r.Bad? then None else Some(r.value);
  }
}
