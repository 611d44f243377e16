/** The write-ahead log as a byte string: records are appended whole, and a file
    cut anywhere yields the records that are still complete. */
module WriteAheadLogs {
  import opened Values
  import opened ByteStreams

  const MAGIC := 0x54435741
  const VERSION := 1

  datatype WalRecord = WalRecord(lsn: int, operation: int, payload: Bytes)

  predicate RecordFits(r: WalRecord) {
    0 <= r.lsn < TWO64 && 0 <= r.operation < 256 && |r.payload| < TWO64
  }

  function EncodeRecord(r: WalRecord): Bytes {
    LE(MAGIC, 4) + (LE(VERSION, 4) + (LE(r.lsn, 8) + (LE(r.operation, 1) + (LE(|r.payload|, 8) + r.payload))))
  }

  // ----- Reading one record ----------------------------------------------------------------

  function MakeRecord(p: (int, (int, Bytes))): WalRecord {
    WalRecord(p.0, p.1.0, p.1.1)
  }

  function BodyReader(): Reader<WalRecord> {
    Map(Pair(Fixed(8), Pair(Fixed(1), Text())), MakeRecord)
  }

  function HeaderBody(h: (int, int)): Reader<WalRecord> {
    if h.0 != MAGIC || h.1 != VERSION then Reject() else BodyReader()
  }

  function RecordReader(): Reader<WalRecord> {
    Bind(Pair(Fixed(4), Fixed(4)), HeaderBody)
  }

  lemma RecordReads(r: WalRecord)
    requires RecordFits(r)
    ensures Reads(RecordReader(), EncodeRecord(r), r)
  {
    hide LE, FromLE, Pow256, Reads;
    Widths();
    FixedReads(MAGIC, 4);
    FixedReads(VERSION, 4);
    FixedReads(r.lsn, 8);
    FixedReads(r.operation, 1);
    TextReads(r.payload);
    var e1 := LE(|r.payload|, 8) + r.payload;
    PairReads(Fixed(1), Text(), LE(r.operation, 1), r.operation, e1, r.payload);
    var e2, v2 := LE(r.operation, 1) + e1, (r.operation, r.payload);
    PairReads(Fixed(8), Pair(Fixed(1), Text()), LE(r.lsn, 8), r.lsn, e2, v2);
    MapReads(Pair(Fixed(8), Pair(Fixed(1), Text())), MakeRecord, LE(r.lsn, 8) + e2, (r.lsn, v2));
    PairReads(Fixed(4), Fixed(4), LE(MAGIC, 4), MAGIC, LE(VERSION, 4), VERSION);
    BindReads(Pair(Fixed(4), Fixed(4)), HeaderBody, LE(MAGIC, 4) + LE(VERSION, 4), (MAGIC, VERSION),
              LE(r.lsn, 8) + e2, r);
    assert EncodeRecord(r) == (LE(MAGIC, 4) + LE(VERSION, 4)) + (LE(r.lsn, 8) + e2);
  }

  /** A record takes at least its 25 bytes of header. */
  lemma RecordShrinks(b: Bytes)
    ensures RecordReader()(b).Got? ==> |RecordReader()(b).rest| < |b|
  {
    match Pair(Fixed(4), Fixed(4))(b)
    case Bad =>
    case Got(h, body) =>
      assert |body| == |b| - 8;
      BodyShrinks(body);
      assert RecordReader()(b) == HeaderBody(h)(body);
  }

  lemma BodyShrinks(b: Bytes)
    ensures BodyReader()(b).Got? ==> |BodyReader()(b).rest| <= |b|
  {
    match Fixed(8)(b)
    case Bad =>
    case Got(lsn, rest) =>
      match Fixed(1)(rest)
      case Bad =>
      case Got(op, tail) =>
        assert Text()(tail).Got? ==> |Text()(tail).rest| <= |tail|;
        assert Pair(Fixed(1), Text())(rest).Got? ==> |Pair(Fixed(1), Text())(rest).rest| <= |tail|;
  }

  // ----- Reading the file --------------------------------------------------------------------

  /** Records from the front, up to the first that is cut or corrupt. */
  function ReadAll(file: Bytes): seq<WalRecord>
    decreases |file|
  {
    RecordShrinks(file);
    match RecordReader()(file)
    case Bad => []
    case Got(r, rest) => [r] + ReadAll(rest)
  }

  function FileOf(rs: seq<WalRecord>): Bytes {
    if rs == [] then [] else EncodeRecord(rs[0]) + FileOf(rs[1..])
  }

  ghost predicate AllFit(rs: seq<WalRecord>) {
    forall i :: 0 <= i < |rs| ==> RecordFits(rs[i])
  }

  lemma {:induction false} FileAppend(rs: seq<WalRecord>, r: WalRecord)
    ensures FileOf(rs + [r]) == FileOf(rs) + EncodeRecord(r)
  {
    hide EncodeRecord;
    if rs == [] {
      assert rs + [r] == [r];
      assert FileOf([r]) == EncodeRecord(r) + FileOf([]);
    } else {
      assert (rs + [r])[1..] == rs[1..] + [r];
      FileAppend(rs[1..], r);
    }
  }

  /** How many of the records lie whole within the first n bytes. */
  function WholeRecords(rs: seq<WalRecord>, n: int): (k: nat)
    ensures k <= |rs|
  {
    if rs == [] || n < |EncodeRecord(rs[0])| then 0 else 1 + WholeRecords(rs[1..], n - |EncodeRecord(rs[0])|)
  }

  lemma {:induction false} WholeBounds(rs: seq<WalRecord>, n: nat)
    ensures |FileOf(rs[..WholeRecords(rs, n)])| <= n
    ensures WholeRecords(rs, n) < |rs| ==> n < |FileOf(rs[..WholeRecords(rs, n) + 1])|
    ensures n >= |FileOf(rs)| ==> WholeRecords(rs, n) == |rs|
  {
    hide EncodeRecord;
    if rs != [] {
      var k, size := WholeRecords(rs, n), |EncodeRecord(rs[0])|;
      if n >= size {
        WholeBounds(rs[1..], n - size);
        assert rs[..k][1..] == rs[1..][..k - 1];
        if k < |rs| {
          assert rs[..k + 1][1..] == rs[1..][..k];
        }
      } else {
        assert rs[..0] == [];
        assert rs[..1][1..] == [];
        assert FileOf(rs[..1]) == EncodeRecord(rs[0]) + FileOf([]);
      }
    }
  }

  /** Whatever the cut, reading returns exactly the records that fit whole. */
  lemma {:induction false} TornTail(rs: seq<WalRecord>, n: nat)
    requires AllFit(rs) && n <= |FileOf(rs)|
    ensures ReadAll(FileOf(rs)[..n]) == rs[..WholeRecords(rs, n)]
  {
    hide EncodeRecord, RecordReader, RecordFits;
    var file := FileOf(rs)[..n];
    if rs == [] {
      EmptyFile();
      assert file == [];
    } else {
      var enc := EncodeRecord(rs[0]);
      RecordReads(rs[0]);
      if n < |enc| {
        assert file <= enc && file != enc;
      } else {
        var rest := FileOf(rs[1..])[..n - |enc|];
        assert file == enc + rest;
        TornTail(rs[1..], n - |enc|);
        var k := WholeRecords(rs, n);
        assert RecordReader()(enc + rest) == Got(rs[0], rest);
        assert rs[..k] == [rs[0]] + rs[1..][..k - 1];
      }
    }
  }

  lemma EmptyFile()
    ensures ReadAll([]) == []
  {
  }

  lemma WholeFile(rs: seq<WalRecord>)
    requires AllFit(rs)
    ensures ReadAll(FileOf(rs)) == rs
  {
    hide FileOf, ReadAll, WholeRecords;
    var n := |FileOf(rs)|;
    TornTail(rs, n);
    WholeBounds(rs, n);
    assert FileOf(rs)[..n] == FileOf(rs) && rs[..|rs|] == rs;
  }

  function Highest(rs: seq<WalRecord>): int {
    if rs == [] then 0
    else
      var before := Highest(rs[..|rs| - 1]);
      if rs[|rs| - 1].lsn > before then rs[|rs| - 1].lsn else before
  }

  /** The number the next record gets. */
  function FreshLsn(rs: seq<WalRecord>, next: Option<int>): int {
    if next.Some? then next.value else Highest(rs) + 1
  }

  lemma {:induction false} HighestIs(rs: seq<WalRecord>)
    ensures Highest(rs) >= 0 && forall i :: 0 <= i < |rs| ==> rs[i].lsn <= Highest(rs)
  {
    if rs != [] {
      HighestIs(rs[..|rs| - 1]);
    }
  }

  // ----- The log ----------------------------------------------------------------------------

  ghost predicate Climbing(rs: seq<WalRecord>) {
    forall i, j :: 0 <= i < j < |rs| ==> rs[i].lsn < rs[j].lsn
  }

  class WriteAheadLog {
    var file: Bytes
    var nextLsn: Option<int>
    /** The records written since the log was last reset. */
    ghost var records: seq<WalRecord>

    /** The file holds whole records with climbing sequence numbers, and the next
        number lies above them. */
    ghost predicate Valid()
      reads this
    {
      && AllFit(records) && Climbing(records) && file == FileOf(records)
      && (nextLsn.Some? ==> 1 <= nextLsn.value)
      && (nextLsn.Some? ==> forall i :: 0 <= i < |records| ==> records[i].lsn < nextLsn.value)
    }

    /** A log opened on an existing file of whole records. */
    constructor (file: Bytes, ghost records: seq<WalRecord>)
      requires AllFit(records) && Climbing(records) && file == FileOf(records)
      ensures Valid() && this.records == records && nextLsn.None?
    {
      this.file, this.records, nextLsn := file, records, None;
    }

    /** `readAll`. */
    method ReadRecords() returns (rs: seq<WalRecord>)
      ensures rs == ReadAll(file)
    {
      hide RecordReader;
      rs := [];
      var cursor := file;
      assert rs + ReadAll(cursor) == ReadAll(file);
      while cursor != []
        invariant rs + ReadAll(cursor) == ReadAll(file)
        decreases |cursor|
      {
        RecordShrinks(cursor);
        var next := RecordReader()(cursor);
        if next.Bad? {
          assert rs + [] == rs;
          return;
        }
        assert rs + ([next.value] + ReadAll(next.rest)) == (rs + [next.value]) + ReadAll(next.rest);
        rs, cursor := rs + [next.value], next.rest;
      }
      EmptyFile();
      assert rs + [] == rs;
    }

    method NextLsn() returns (lsn: int)
      requires Valid()
      modifies this`nextLsn
      ensures Valid() && nextLsn == Some(lsn + 1) && lsn == FreshLsn(records, old(nextLsn)) && lsn >= 1
      ensures forall i :: 0 <= i < |records| ==> records[i].lsn < lsn
    {
      hide ReadAll, FileOf, RecordFits;
      if nextLsn.Some? {
        lsn := nextLsn.value;
        nextLsn := Some(lsn + 1);
        return;
      }
      lsn := 1;
      var rs := ReadRecords();
      WholeFile(records);
      HighestIs(rs);
      for i := 0 to |rs|
        invariant lsn == Highest(rs[..i]) + 1
      {
        assert rs[..i + 1][..i] == rs[..i];
        HighestIs(rs[..i]);
        lsn := if rs[i].lsn + 1 > lsn then rs[i].lsn + 1 else lsn;
      }
      assert rs[..|rs|] == rs;
      nextLsn := Some(lsn + 1);
    }

    /** The record goes to the end of the file under the next number. */
    method Append(operation: int, payload: Bytes) returns (lsn: int)
      requires Valid() && 0 <= operation < 256 && |payload| < TWO64
      requires FreshLsn(records, nextLsn) < TWO64
      modifies this
      ensures Valid() && records == old(records) + [WalRecord(lsn, operation, payload)]
      ensures file == old(file) + EncodeRecord(WalRecord(lsn, operation, payload))
    {
      hide EncodeRecord, ReadAll, FreshLsn;
      lsn := NextLsn();
      var r := WalRecord(lsn, operation, payload);
      FileAppend(records, r);
      file := file + EncodeRecord(r);
      records := records + [r];
    }

    method Reset()
      modifies this
      ensures Valid() && records == [] && file == [] && nextLsn == Some(1)
    {
      file, records, nextLsn := [], [], Some(1);
    }
  }
}
