/** The byte layout of page-image redo records. */
module RedoCodec {
  import opened Values
  import opened ByteStreams
  import opened PageCodec

  // ----- Values with composite keys -------------------------------------------------------

  /** A composite key has at least two parts; one part alone is that part. */
  predicate CellOk(c: Cell) {
    if c.CompositeCell? then
      2 <= |c.parts| < TWO64 && forall i :: 0 <= i < |c.parts| ==> CellOk(c.parts[i])
    else PlainOk(c)
  }

  function EncodeCell(c: Cell): Bytes
    decreases c, 0
  {
    if c.CompositeCell? then LE(COMPOSITE_TAG, 1) + (LE(|c.parts|, 8) + EncodeParts(c.parts)) else EncodePlain(c)
  }

  function EncodeParts(parts: seq<Cell>): Bytes
    decreases parts, 1
  {
    if parts == [] then [] else EncodeCell(parts[0]) + EncodeParts(parts[1..])
  }

  function MakeComposite(parts: seq<Cell>): Cell
    requires parts != []
  {
    if |parts| == 1 then parts[0] else CompositeCell(parts)
  }

  lemma PlainShrinks(tag: int, b: Bytes)
    ensures PlainBody(tag)(b).Got? ==> |PlainBody(tag)(b).rest| <= |b|
  {
  }

  /** `readValue` of the redo format. */
  function ReadCell(b: Bytes): (r: Parsed<Cell>)
    ensures r.Got? ==> |r.rest| < |b|
    decreases |b|, 0
  {
    match Fixed(1)(b)
    case Bad => Bad
    case Got(tag, body) =>
      if tag == COMPOSITE_TAG then
        match Fixed(8)(body)
        case Bad => Bad
        case Got(n, items) =>
          match ReadParts(n, items)
          case Bad => Bad
          case Got(parts, rest) => if parts == [] then Bad else Got(MakeComposite(parts), rest)
      else
        PlainShrinks(tag, body);
        PlainBody(tag)(body)
  }

  function ReadParts(n: int, b: Bytes): (r: Parsed<seq<Cell>>)
    ensures r.Got? ==> |r.rest| <= |b|
    decreases |b|, 1
  {
    if n <= 0 then Got([], b)
    else
      match ReadCell(b)
      case Bad => Bad
      case Got(x, rest) =>
        match ReadParts(n - 1, rest)
        case Bad => Bad
        case Got(xs, end) => Got([x] + xs, end)
  }

  function CellReader(): Reader<Cell> {
    b => ReadCell(b)
  }

  function PartsReader(n: int): Reader<seq<Cell>> {
    b => ReadParts(n, b)
  }

  function CompositeOf(parts: seq<Cell>): Reader<Cell> {
    if parts == [] then Reject() else Pure(MakeComposite(parts))
  }

  function CompositeBody(n: int): Reader<Cell> {
    Bind(PartsReader(n), CompositeOf)
  }

  function CellBody(tag: int): Reader<Cell> {
    if tag == COMPOSITE_TAG then Bind(Fixed(8), CompositeBody) else PlainBody(tag)
  }

  /** The recursive reader does what the chained readers say. */
  lemma CellUnfolds(b: Bytes)
    ensures CellReader()(b) == Bind(Fixed(1), CellBody)(b)
  {
    match Fixed(1)(b)
    case Bad =>
    case Got(tag, body) =>
      if tag == COMPOSITE_TAG {
        match Fixed(8)(body)
        case Bad =>
        case Got(n, items) =>
          match PartsReader(n)(items)
          case Bad =>
          case Got(parts, rest) => assert CompositeBody(n)(items) == CompositeOf(parts)(rest);
      }
  }

  lemma {:induction false} PartsRead(parts: seq<Cell>)
    requires forall i :: 0 <= i < |parts| ==> CellOk(parts[i])
    ensures Reads(PartsReader(|parts|), EncodeParts(parts), parts)
    decreases parts, 1
  {
    hide EncodeCell, CellOk, ReadCell, ReadParts, Reads, CellReader, PartsReader;
    if parts == [] {
      NoParts();
    } else {
      var x, xs := parts[0], parts[1..];
      var item := Map(Pair(CellReader(), PartsReader(|xs|)), JoinParts);
      CellReads(x);
      PartsRead(xs);
      PairReads(CellReader(), PartsReader(|xs|), EncodeCell(x), x, EncodeParts(xs), xs);
      MapReads(Pair(CellReader(), PartsReader(|xs|)), JoinParts, EncodeCell(x) + EncodeParts(xs), (x, xs));
      assert JoinParts((x, xs)) == parts;
      forall b: Bytes ensures item(b) == PartsReader(|parts|)(b) {
        PartsUnfold(|parts|, b);
      }
      SameReads(item, PartsReader(|parts|), EncodeParts(parts), parts);
    }
  }

  lemma NoParts()
    ensures Reads(PartsReader(0), [], [])
  {
    assert forall rest: Bytes :: [] + rest == rest;
  }

  lemma PartsUnfold(n: int, b: Bytes)
    requires n > 0
    ensures PartsReader(n)(b) == Map(Pair(CellReader(), PartsReader(n - 1)), JoinParts)(b)
  {
    match CellReader()(b)
    case Bad =>
    case Got(x, rest) =>
      match PartsReader(n - 1)(rest)
      case Bad =>
      case Got(xs, end) =>
        assert Pair(CellReader(), PartsReader(n - 1))(b) == Got((x, xs), end);
        assert JoinParts((x, xs)) == [x] + xs;
  }

  function JoinParts(p: (Cell, seq<Cell>)): seq<Cell> {
    [p.0] + p.1
  }

  lemma {:induction false} CellReads(c: Cell)
    requires CellOk(c)
    ensures Reads(CellReader(), EncodeCell(c), c)
    decreases c, 0
  {
    hide LE, FromLE, Pow256, EncodePlain, ReadCell, Reads, PlainOk, PlainBody;
    Widths();
    FixedReads(TagOf(c), 1);
    if c.CompositeCell? {
      var n := |c.parts|;
      PartsRead(c.parts);
      PureReads(c);
      BindReads(PartsReader(n), CompositeOf, EncodeParts(c.parts), c.parts, [], c);
      assert EncodeParts(c.parts) + [] == EncodeParts(c.parts);
      FixedReads(n, 8);
      BindReads(Fixed(8), CompositeBody, LE(n, 8), n, EncodeParts(c.parts), c);
      BindReads(Fixed(1), CellBody, LE(COMPOSITE_TAG, 1), COMPOSITE_TAG, LE(n, 8) + EncodeParts(c.parts), c);
    } else {
      PlainBodyReads(c);
      PlainTag(c);
      BindReads(Fixed(1), CellBody, LE(TagOf(c), 1), TagOf(c), BodyOf(c), c);
    }
    forall b: Bytes ensures Bind(Fixed(1), CellBody)(b) == CellReader()(b) {
      CellUnfolds(b);
    }
    SameReads(Bind(Fixed(1), CellBody), CellReader(), EncodeCell(c), c);
  }

  lemma PlainTag(c: Cell)
    requires !c.CompositeCell?
    ensures TagOf(c) != COMPOSITE_TAG && CellBody(TagOf(c)) == PlainBody(TagOf(c))
  {
  }

  // ----- Records ----------------------------------------------------------------------------

  datatype NodeImage =
    | LeafImage(pageId: int, keys: seq<Cell>, rowIds: seq<seq<int>>, nextLeaf: Option<int>)
    | InnerImage(pageId: int, keys: seq<Cell>, children: seq<int>)

  datatype TreeImage = TreeImage(
    maxKeys: int, rootPageId: int, nextPageId: int, keyCount: int, free: seq<int>, nodes: seq<NodeImage>)

  datatype HashImage = HashImage(replaceAll: bool, buckets: seq<(Cell, seq<int>)>)

  datatype HeapImage = HeapImage(pageId: int, bytes: Bytes)

  datatype RedoRecord = RedoRecord(
    table: Bytes, meta: Option<(int, seq<int>)>, heap: seq<HeapImage>,
    trees: seq<(Bytes, TreeImage)>, hashes: seq<(Bytes, HashImage)>)

  const HASH_KIND := 0
  const TREE_KIND := 1

  predicate Word(n: int) {
    0 <= n < TWO64
  }

  function EncodeWord(n: int): Bytes {
    LE(n, 8)
  }

  predicate WordsOk(ns: seq<int>) {
    |ns| < TWO64 && forall i :: 0 <= i < |ns| ==> Word(ns[i])
  }

  /** A count and the items, each encoded. */
  function EncodeList<T>(xs: seq<T>, encode: T -> Bytes): Bytes {
    LE(|xs|, 8) + Concat(seq(|xs|, i requires 0 <= i < |xs| => encode(xs[i])))
  }

  lemma ListReads<T(!new)>(read: Reader<T>, encode: T -> Bytes, xs: seq<T>)
    requires |xs| < TWO64 && forall i :: 0 <= i < |xs| ==> Reads(read, encode(xs[i]), xs[i])
    ensures Reads(Counted(read), EncodeList(xs, encode), xs)
  {
    CountedReads(read, seq(|xs|, i requires 0 <= i < |xs| => encode(xs[i])), xs);
  }

  function EncodeWords(ns: seq<int>): Bytes {
    EncodeList(ns, EncodeWord)
  }

  function WordsReader(): Reader<seq<int>> {
    Counted(Fixed(8))
  }

  lemma WordReads(n: int)
    requires Word(n)
    ensures Reads(Fixed(8), EncodeWord(n), n)
  {
    hide LE, FromLE, Pow256;
    Widths();
    FixedReads(n, 8);
  }

  lemma WordsRead(ns: seq<int>)
    requires WordsOk(ns)
    ensures Reads(WordsReader(), EncodeWords(ns), ns)
  {
    forall i | 0 <= i < |ns| ensures Reads(Fixed(8), EncodeWord(ns[i]), ns[i]) {
      WordReads(ns[i]);
    }
    ListReads(Fixed(8), EncodeWord, ns);
  }

  // ----- Flags and optional fields ------------------------------------------------------------

  function NonZero(n: int): bool {
    n != 0
  }

  function FlagReader(): Reader<bool> {
    Map(Fixed(1), NonZero)
  }

  function EncodeFlag(b: bool): Bytes {
    LE(if b then 1 else 0, 1)
  }

  lemma FlagReads(b: bool)
    ensures Reads(FlagReader(), EncodeFlag(b), b)
  {
    hide LE, FromLE, Pow256;
    Widths();
    var n := if b then 1 else 0;
    FixedReads(n, 1);
    MapReads(Fixed(1), NonZero, LE(n, 1), n);
  }

  function Wrap<T>(): T -> Option<T> {
    v => Some(v)
  }

  function MaybeField<T>(read: Reader<T>, present: bool): Reader<Option<T>> {
    if present then Map(read, Wrap()) else Pure(None)
  }

  function MaybeBody<T>(read: Reader<T>): bool -> Reader<Option<T>> {
    present => MaybeField(read, present)
  }

  /** A flag, and the field if the flag is set. */
  function Maybe<T>(read: Reader<T>): Reader<Option<T>> {
    Bind(FlagReader(), MaybeBody(read))
  }

  function EncodeMaybe<T>(v: Option<T>, encode: T -> Bytes): Bytes {
    EncodeFlag(v.Some?) + if v.Some? then encode(v.value) else []
  }

  lemma MaybeReads<T(!new)>(read: Reader<T>, encode: T -> Bytes, v: Option<T>)
    requires v.Some? ==> Reads(read, encode(v.value), v.value)
    ensures Reads(Maybe(read), EncodeMaybe(v, encode), v)
  {
    hide EncodeFlag;
    FlagReads(v.Some?);
    if v.Some? {
      MapReads(read, Wrap(), encode(v.value), v.value);
      BindReads(FlagReader(), MaybeBody(read), EncodeFlag(true), true, encode(v.value), v);
    } else {
      PureReads<Option<T>>(None);
      BindReads(FlagReader(), MaybeBody(read), EncodeFlag(false), false, [], v);
    }
  }

  // ----- Index pages --------------------------------------------------------------------------

  predicate CellsOk(cells: seq<Cell>) {
    |cells| < TWO64 && forall i :: 0 <= i < |cells| ==> CellOk(cells[i])
  }

  function EncodeKeys(keys: seq<Cell>): Bytes {
    EncodeList(keys, EncodeCell)
  }

  lemma KeysRead(keys: seq<Cell>)
    requires CellsOk(keys)
    ensures Reads(Counted(CellReader()), EncodeKeys(keys), keys)
  {
    hide CellOk, EncodeCell, Reads;
    forall i | 0 <= i < |keys| ensures Reads(CellReader(), EncodeCell(keys[i]), keys[i]) {
      CellReads(keys[i]);
    }
    ListReads(CellReader(), EncodeCell, keys);
  }

  predicate GroupsOk(groups: seq<seq<int>>) {
    |groups| < TWO64 && forall i :: 0 <= i < |groups| ==> WordsOk(groups[i])
  }

  function EncodeGroups(groups: seq<seq<int>>): Bytes {
    EncodeList(groups, EncodeWords)
  }

  lemma GroupsRead(groups: seq<seq<int>>)
    requires GroupsOk(groups)
    ensures Reads(Counted(WordsReader()), EncodeGroups(groups), groups)
  {
    hide WordsOk, EncodeWords, Reads, WordsReader;
    forall i | 0 <= i < |groups| ensures Reads(WordsReader(), EncodeWords(groups[i]), groups[i]) {
      WordsRead(groups[i]);
    }
    ListReads(WordsReader(), EncodeWords, groups);
  }

  predicate NodeOk(n: NodeImage) {
    && Word(n.pageId) && CellsOk(n.keys)
    && match n
       case LeafImage(_, _, rowIds, nextLeaf) => GroupsOk(rowIds) && (nextLeaf.Some? ==> Word(nextLeaf.value))
       case InnerImage(_, _, children) => WordsOk(children)
  }

  function EncodeNode(n: NodeImage): Bytes {
    (EncodeWord(n.pageId) + (EncodeFlag(n.LeafImage?) + EncodeKeys(n.keys))) +
    match n
    case LeafImage(_, _, rowIds, nextLeaf) => EncodeGroups(rowIds) + EncodeMaybe(nextLeaf, EncodeWord)
    case InnerImage(_, _, children) => EncodeWords(children)
  }

  type NodeHead = (int, (bool, seq<Cell>))

  function MakeLeaf(h: NodeHead): ((seq<seq<int>>, Option<int>)) -> NodeImage {
    (t: (seq<seq<int>>, Option<int>)) => LeafImage(h.0, h.1.1, t.0, t.1)
  }

  function MakeInner(h: NodeHead): seq<int> -> NodeImage {
    children => InnerImage(h.0, h.1.1, children)
  }

  function NodeTail(h: NodeHead): Reader<NodeImage> {
    if h.1.0 then Map(Pair(Counted(WordsReader()), Maybe(Fixed(8))), MakeLeaf(h))
    else Map(WordsReader(), MakeInner(h))
  }

  function NodeReader(): Reader<NodeImage> {
    Bind(Pair(Fixed(8), Pair(FlagReader(), Counted(CellReader()))), NodeTail)
  }

  lemma NodeReads(n: NodeImage)
    requires NodeOk(n)
    ensures Reads(NodeReader(), EncodeNode(n), n)
  {
    hide Reads, EncodeWord, EncodeFlag, EncodeKeys, EncodeGroups, EncodeMaybe, EncodeWords, FlagReader, WordsReader,
         CellReader, Maybe, Counted, CellsOk, GroupsOk, WordsOk, Word;
    var h: NodeHead := (n.pageId, (n.LeafImage?, n.keys));
    WordReads(n.pageId);
    FlagReads(n.LeafImage?);
    KeysRead(n.keys);
    PairReads(FlagReader(), Counted(CellReader()), EncodeFlag(n.LeafImage?), n.LeafImage?, EncodeKeys(n.keys), n.keys);
    var head := EncodeWord(n.pageId) + (EncodeFlag(n.LeafImage?) + EncodeKeys(n.keys));
    PairReads(Fixed(8), Pair(FlagReader(), Counted(CellReader())),
              EncodeWord(n.pageId), n.pageId, EncodeFlag(n.LeafImage?) + EncodeKeys(n.keys), (n.LeafImage?, n.keys));
    var tail: Bytes;
    match n {
      case LeafImage(_, _, rowIds, nextLeaf) =>
        tail := EncodeGroups(rowIds) + EncodeMaybe(nextLeaf, EncodeWord);
        GroupsRead(rowIds);
        if nextLeaf.Some? {
          WordReads(nextLeaf.value);
        }
        MaybeReads(Fixed(8), EncodeWord, nextLeaf);
        PairReads(Counted(WordsReader()), Maybe(Fixed(8)), EncodeGroups(rowIds), rowIds,
                  EncodeMaybe(nextLeaf, EncodeWord), nextLeaf);
        MapReads(Pair(Counted(WordsReader()), Maybe(Fixed(8))), MakeLeaf(h), tail, (rowIds, nextLeaf));
      case InnerImage(_, _, children) =>
        tail := EncodeWords(children);
        WordsRead(children);
        MapReads(WordsReader(), MakeInner(h), tail, children);
    }
    assert Reads(NodeTail(h), tail, n);
    BindReads(Pair(Fixed(8), Pair(FlagReader(), Counted(CellReader()))), NodeTail, head, h, tail, n);
  }

  predicate TreeOk(t: TreeImage) {
    && Word(t.maxKeys) && Word(t.rootPageId) && Word(t.nextPageId) && Word(t.keyCount)
    && WordsOk(t.free) && |t.nodes| < TWO64 && forall i :: 0 <= i < |t.nodes| ==> NodeOk(t.nodes[i])
  }

  function EncodeTree(t: TreeImage): Bytes {
    EncodeWord(t.maxKeys) + (EncodeWord(t.rootPageId) + (EncodeWord(t.nextPageId) + (EncodeWord(t.keyCount) +
    (EncodeWords(t.free) + EncodeList(t.nodes, EncodeNode)))))
  }

  function MakeTree(p: (int, (int, (int, (int, (seq<int>, seq<NodeImage>)))))): TreeImage {
    TreeImage(p.0, p.1.0, p.1.1.0, p.1.1.1.0, p.1.1.1.1.0, p.1.1.1.1.1)
  }

  function TreeReader(): Reader<TreeImage> {
    Map(Pair(Fixed(8), Pair(Fixed(8), Pair(Fixed(8), Pair(Fixed(8), Pair(WordsReader(), Counted(NodeReader())))))),
        MakeTree)
  }

  lemma TreeReads(t: TreeImage)
    requires TreeOk(t)
    ensures Reads(TreeReader(), EncodeTree(t), t)
  {
    hide Reads, EncodeWord, EncodeWords, EncodeNode, EncodeList, WordsReader, NodeReader, Counted, Fixed, Word, WordsOk,
         NodeOk;
    WordReads(t.maxKeys);
    WordReads(t.rootPageId);
    WordReads(t.nextPageId);
    WordReads(t.keyCount);
    WordsRead(t.free);
    forall i | 0 <= i < |t.nodes| ensures Reads(NodeReader(), EncodeNode(t.nodes[i]), t.nodes[i]) {
      NodeReads(t.nodes[i]);
    }
    ListReads(NodeReader(), EncodeNode, t.nodes);
    var nodes := EncodeList(t.nodes, EncodeNode);
    var r5 := Pair(WordsReader(), Counted(NodeReader()));
    var e5, v5 := EncodeWords(t.free) + nodes, (t.free, t.nodes);
    PairReads(WordsReader(), Counted(NodeReader()), EncodeWords(t.free), t.free, nodes, t.nodes);
    PairReads(Fixed(8), r5, EncodeWord(t.keyCount), t.keyCount, e5, v5);
    var r4, e4, v4 := Pair(Fixed(8), r5), EncodeWord(t.keyCount) + e5, (t.keyCount, v5);
    PairReads(Fixed(8), r4, EncodeWord(t.nextPageId), t.nextPageId, e4, v4);
    var r3, e3, v3 := Pair(Fixed(8), r4), EncodeWord(t.nextPageId) + e4, (t.nextPageId, v4);
    PairReads(Fixed(8), r3, EncodeWord(t.rootPageId), t.rootPageId, e3, v3);
    var r2, e2, v2 := Pair(Fixed(8), r3), EncodeWord(t.rootPageId) + e3, (t.rootPageId, v3);
    PairReads(Fixed(8), r2, EncodeWord(t.maxKeys), t.maxKeys, e2, v2);
    MapReads(Pair(Fixed(8), r2), MakeTree, EncodeWord(t.maxKeys) + e2, (t.maxKeys, v2));
  }

  predicate BucketOk(b: (Cell, seq<int>)) {
    CellOk(b.0) && WordsOk(b.1)
  }

  predicate HashOk(h: HashImage) {
    |h.buckets| < TWO64 && forall i :: 0 <= i < |h.buckets| ==> BucketOk(h.buckets[i])
  }

  function EncodeBucket(b: (Cell, seq<int>)): Bytes {
    EncodeCell(b.0) + EncodeWords(b.1)
  }

  function EncodeHash(h: HashImage): Bytes {
    EncodeFlag(h.replaceAll) + EncodeList(h.buckets, EncodeBucket)
  }

  function MakeHash(p: (bool, seq<(Cell, seq<int>)>)): HashImage {
    HashImage(p.0, p.1)
  }

  function BucketReader(): Reader<(Cell, seq<int>)> {
    Pair(CellReader(), WordsReader())
  }

  function HashReader(): Reader<HashImage> {
    Map(Pair(FlagReader(), Counted(BucketReader())), MakeHash)
  }

  lemma HashReads(h: HashImage)
    requires HashOk(h)
    ensures Reads(HashReader(), EncodeHash(h), h)
  {
    hide Reads, EncodeCell, EncodeWords, EncodeFlag, EncodeList, CellReader, WordsReader, FlagReader, Counted, CellOk,
         WordsOk;
    FlagReads(h.replaceAll);
    forall i | 0 <= i < |h.buckets| ensures Reads(BucketReader(), EncodeBucket(h.buckets[i]), h.buckets[i]) {
      var b := h.buckets[i];
      assert BucketOk(b);
      CellReads(b.0);
      WordsRead(b.1);
      PairReads(CellReader(), WordsReader(), EncodeCell(b.0), b.0, EncodeWords(b.1), b.1);
      assert b == (b.0, b.1);
    }
    ListReads(BucketReader(), EncodeBucket, h.buckets);
    PairReads(FlagReader(), Counted(BucketReader()), EncodeFlag(h.replaceAll), h.replaceAll,
              EncodeList(h.buckets, EncodeBucket), h.buckets);
    MapReads(Pair(FlagReader(), Counted(BucketReader())), MakeHash, EncodeHash(h), (h.replaceAll, h.buckets));
  }

  // ----- Whole records ---------------------------------------------------------------------

  function EncodeText(bytes: Bytes): Bytes {
    LE(|bytes|, 8) + bytes
  }

  predicate HeapImageOk(h: HeapImage) {
    Word(h.pageId) && |h.bytes| < TWO64
  }

  function EncodeHeap(h: HeapImage): Bytes {
    EncodeWord(h.pageId) + EncodeText(h.bytes)
  }

  function MakeHeap(p: (int, Bytes)): HeapImage {
    HeapImage(p.0, p.1)
  }

  function HeapReader(): Reader<HeapImage> {
    Map(Pair(Fixed(8), Text()), MakeHeap)
  }

  lemma HeapReads(h: HeapImage)
    requires HeapImageOk(h)
    ensures Reads(HeapReader(), EncodeHeap(h), h)
  {
    hide LE, Reads, EncodeWord, Fixed, Text;
    WordReads(h.pageId);
    TextReads(h.bytes);
    PairReads(Fixed(8), Text(), EncodeWord(h.pageId), h.pageId, EncodeText(h.bytes), h.bytes);
    MapReads(Pair(Fixed(8), Text()), MakeHeap, EncodeHeap(h), (h.pageId, h.bytes));
  }

  /** An index image is preceded by its name and a byte for its kind, which must
      be the expected one. */
  function KindField<T>(kind: int, read: Reader<T>, found: int): Reader<T> {
    if found == kind then read else Reject()
  }

  function KindBody<T>(kind: int, read: Reader<T>): int -> Reader<T> {
    found => KindField(kind, read, found)
  }

  function Named<T>(kind: int, read: Reader<T>): Reader<(Bytes, T)> {
    Pair(Text(), Bind(Fixed(1), KindBody(kind, read)))
  }

  function EncodeNamed<T>(kind: int, v: (Bytes, T), encode: T -> Bytes): Bytes {
    EncodeText(v.0) + (LE(kind, 1) + encode(v.1))
  }

  lemma NamedReads<T(!new)>(kind: int, read: Reader<T>, encode: T -> Bytes, v: (Bytes, T))
    requires 0 <= kind < 256 && |v.0| < TWO64 && Reads(read, encode(v.1), v.1)
    ensures Reads(Named(kind, read), EncodeNamed(kind, v, encode), v)
  {
    hide LE, FromLE, Pow256, Reads, Fixed, Text;
    Widths();
    TextReads(v.0);
    FixedReads(kind, 1);
    assert KindBody(kind, read)(kind) == read;
    BindReads(Fixed(1), KindBody(kind, read), LE(kind, 1), kind, encode(v.1), v.1);
    PairReads(Text(), Bind(Fixed(1), KindBody(kind, read)), EncodeText(v.0), v.0, LE(kind, 1) + encode(v.1), v.1);
    assert v == (v.0, v.1);
  }

  function EncodeNamedTree(v: (Bytes, TreeImage)): Bytes {
    EncodeNamed(TREE_KIND, v, EncodeTree)
  }

  function EncodeNamedHash(v: (Bytes, HashImage)): Bytes {
    EncodeNamed(HASH_KIND, v, EncodeHash)
  }

  function EncodeMeta(m: (int, seq<int>)): Bytes {
    EncodeWord(m.0) + EncodeWords(m.1)
  }

  predicate RecordOk(r: RedoRecord) {
    && |r.table| < TWO64
    && (r.meta.Some? ==> Word(r.meta.value.0) && WordsOk(r.meta.value.1))
    && |r.heap| < TWO64 && (forall i :: 0 <= i < |r.heap| ==> HeapImageOk(r.heap[i]))
    && |r.trees| < TWO64 && (forall i :: 0 <= i < |r.trees| ==> |r.trees[i].0| < TWO64 && TreeOk(r.trees[i].1))
    && |r.hashes| < TWO64 && (forall i :: 0 <= i < |r.hashes| ==> |r.hashes[i].0| < TWO64 && HashOk(r.hashes[i].1))
  }

  function EncodeRecord(r: RedoRecord): Bytes {
    EncodeText(r.table) + (EncodeMaybe(r.meta, EncodeMeta) + (EncodeList(r.heap, EncodeHeap) +
    (EncodeList(r.trees, EncodeNamedTree) + EncodeList(r.hashes, EncodeNamedHash))))
  }

  type RecordParts = (Bytes,
                      (Option<(int, seq<int>)>, (seq<HeapImage>, (seq<(Bytes, TreeImage)>, seq<(Bytes, HashImage)>))))

  function MakeRecord(p: RecordParts): RedoRecord {
    RedoRecord(p.0, p.1.0, p.1.1.0, p.1.1.1.0, p.1.1.1.1)
  }

  function MetaReader(): Reader<(int, seq<int>)> {
    Pair(Fixed(8), WordsReader())
  }

  function TreesReader(): Reader<seq<(Bytes, TreeImage)>> {
    Counted(Named(TREE_KIND, TreeReader()))
  }

  function HashesReader(): Reader<seq<(Bytes, HashImage)>> {
    Counted(Named(HASH_KIND, HashReader()))
  }

  function RecordReader(): Reader<RedoRecord> {
    Map(Pair(Text(), Pair(Maybe(MetaReader()), Pair(Counted(HeapReader()), Pair(TreesReader(), HashesReader())))),
        MakeRecord)
  }

  lemma MetaReads(m: Option<(int, seq<int>)>)
    requires m.Some? ==> Word(m.value.0) && WordsOk(m.value.1)
    ensures Reads(Maybe(MetaReader()), EncodeMaybe(m, EncodeMeta), m)
  {
    hide Reads, EncodeWord, EncodeWords, WordsReader, Fixed;
    if m.Some? {
      WordReads(m.value.0);
      WordsRead(m.value.1);
      PairReads(Fixed(8), WordsReader(), EncodeWord(m.value.0), m.value.0, EncodeWords(m.value.1), m.value.1);
      assert m.value == (m.value.0, m.value.1);
    }
    MaybeReads(MetaReader(), EncodeMeta, m);
  }

  lemma TreesRead(ts: seq<(Bytes, TreeImage)>)
    requires |ts| < TWO64 && forall i :: 0 <= i < |ts| ==> |ts[i].0| < TWO64 && TreeOk(ts[i].1)
    ensures Reads(TreesReader(), EncodeList(ts, EncodeNamedTree), ts)
  {
    hide Reads, TreeOk, EncodeTree, TreeReader, EncodeNamed, Named;
    forall i | 0 <= i < |ts| ensures Reads(Named(TREE_KIND, TreeReader()), EncodeNamedTree(ts[i]), ts[i]) {
      TreeReads(ts[i].1);
      NamedReads(TREE_KIND, TreeReader(), EncodeTree, ts[i]);
    }
    ListReads(Named(TREE_KIND, TreeReader()), EncodeNamedTree, ts);
  }

  lemma HashesRead(hs: seq<(Bytes, HashImage)>)
    requires |hs| < TWO64 && forall i :: 0 <= i < |hs| ==> |hs[i].0| < TWO64 && HashOk(hs[i].1)
    ensures Reads(HashesReader(), EncodeList(hs, EncodeNamedHash), hs)
  {
    hide Reads, HashOk, EncodeHash, HashReader, EncodeNamed, Named;
    forall i | 0 <= i < |hs| ensures Reads(Named(HASH_KIND, HashReader()), EncodeNamedHash(hs[i]), hs[i]) {
      HashReads(hs[i].1);
      NamedReads(HASH_KIND, HashReader(), EncodeHash, hs[i]);
    }
    ListReads(Named(HASH_KIND, HashReader()), EncodeNamedHash, hs);
  }

  lemma HeapsRead(hs: seq<HeapImage>)
    requires |hs| < TWO64 && forall i :: 0 <= i < |hs| ==> HeapImageOk(hs[i])
    ensures Reads(Counted(HeapReader()), EncodeList(hs, EncodeHeap), hs)
  {
    hide Reads, HeapImageOk, EncodeHeap, HeapReader;
    forall i | 0 <= i < |hs| ensures Reads(HeapReader(), EncodeHeap(hs[i]), hs[i]) {
      HeapReads(hs[i]);
    }
    ListReads(HeapReader(), EncodeHeap, hs);
  }

  lemma RecordReads(r: RedoRecord)
    requires RecordOk(r)
    ensures Reads(RecordReader(), EncodeRecord(r), r)
  {
    hide Reads, LE, EncodeMaybe, EncodeList, Text, Maybe, Counted, HeapReader, TreesReader, HashesReader, TreeOk,
         HashOk, HeapImageOk, WordsOk, Word;
    TextReads(r.table);
    MetaReads(r.meta);
    HeapsRead(r.heap);
    TreesRead(r.trees);
    HashesRead(r.hashes);
    var e1, e2 := EncodeList(r.trees, EncodeNamedTree), EncodeList(r.hashes, EncodeNamedHash);
    PairReads(TreesReader(), HashesReader(), e1, r.trees, e2, r.hashes);
    var r3, v3 := Pair(TreesReader(), HashesReader()), (r.trees, r.hashes);
    var e3 := EncodeList(r.heap, EncodeHeap);
    PairReads(Counted(HeapReader()), r3, e3, r.heap, e1 + e2, v3);
    var r4, v4 := Pair(Counted(HeapReader()), r3), (r.heap, v3);
    var e4 := EncodeMaybe(r.meta, EncodeMeta);
    PairReads(Maybe(MetaReader()), r4, e4, r.meta, e3 + (e1 + e2), v4);
    var r5, v5 := Pair(Maybe(MetaReader()), r4), (r.meta, v4);
    PairReads(Text(), r5, EncodeText(r.table), r.table, e4 + (e3 + (e1 + e2)), v5);
    MapReads(Pair(Text(), r5), MakeRecord, EncodeRecord(r), (r.table, v5));
  }

  predicate BatchOk(rs: seq<RedoRecord>) {
    0 < |rs| < TWO64 && forall i :: 0 <= i < |rs| ==> RecordOk(rs[i])
  }

  /** `encodePageImageRedos`. */
  function EncodeBatch(rs: seq<RedoRecord>): Bytes {
    EncodeList(rs, EncodeRecord)
  }

  /** `decodePageImageRedos`: an empty batch and trailing bytes are errors. */
  function DecodeBatch(payload: Bytes): Option<seq<RedoRecord>> {
    match Counted(RecordReader())(payload)
    case Bad => None
    case Got(rs, rest) => if rs == [] || rest != [] then None else Some(rs)
  }

  /** A batch comes back as it was written, and every strict prefix of its
      encoding is rejected. */
  lemma BatchRoundTrip(rs: seq<RedoRecord>)
    requires BatchOk(rs)
    ensures DecodeBatch(EncodeBatch(rs)) == Some(rs)
    ensures forall cut: Bytes :: cut <= EncodeBatch(rs) && cut != EncodeBatch(rs) ==> DecodeBatch(cut) == None
    ensures forall more: Bytes :: more != [] ==> DecodeBatch(EncodeBatch(rs) + more) == None
  {
    hide RecordOk, EncodeRecord, RecordReader, Counted, EncodeList;
    forall i | 0 <= i < |rs| ensures Reads(RecordReader(), EncodeRecord(rs[i]), rs[i]) {
      RecordReads(rs[i]);
    }
    ListReads(RecordReader(), EncodeRecord, rs);
    assert EncodeBatch(rs) + [] == EncodeBatch(rs);
  }
}
