/** Heap pages and the counter page as bytes. */
module RowPages {
  import opened Common
  import opened Values
  import opened BinaryIo
  import opened RecordCodecs
  import opened Packing
  import opened RowStores

  // ---------- row entries ----------

  function EncEntry(row: Row): (bs: Bytes)
    ensures |bs| == 4 + |EncRow(row)|
  {
    LE(4, |EncRow(row)|) + EncRow(row)
  }

  /** The row after an entry's size must take exactly that size. */
  function ReadEntryBody(head: Parsed<nat>): (r: Parsed<Row>) {
    match head
    case Fail => Fail
    case Got(size, tail) =>
      if |tail| < size then Fail else
      match ReadRow(tail)
      case Fail => Fail
      case Got(row, rest) => if |tail| - |rest| != size then Fail else Got(row, rest)
  }

  function ReadEntry(bytes: Bytes): (r: Parsed<Row>) {
    ReadEntryBody(ReadLE(4, bytes))
  }

  predicate FitsEntry(row: Row) {
    FitsRow(row) && |EncRow(row)| < Span(4)
  }

  lemma EntryBody(head: Parsed<nat>, row: Row, rest: Bytes)
    ensures ReadEntryBody(head) == Got(row, rest) <==>
            FitsRow(row) && head == Got(|EncRow(row)|, EncRow(row) + rest)
  {
    RowCodec(row, EncRow(row) + rest, rest);
    if head.Got? {
      RowCodec(row, head.rest, rest);
    }
  }

  lemma EntryCodec(row: Row, bytes: Bytes, rest: Bytes)
    ensures ReadEntry(bytes) == Got(row, rest) <==> FitsEntry(row) && bytes == EncEntry(row) + rest
  {
    var b := EncRow(row);
    EntryBody(ReadLE(4, bytes), row, rest);
    LECodec(4, |b|, bytes, b + rest);
    assert LE(4, |b|) + (b + rest) == EncEntry(row) + rest;
  }

  function Entries(): Codec<Row> {
    Codec((row: Row) => EncEntry(row), bytes => ReadEntry(bytes), (row: Row) => FitsEntry(row))
  }

  lemma EntriesSound()
    ensures Entries().Sound()
  {
    forall row: Row, bytes: Bytes, rest: Bytes
      ensures Entries().At(row, bytes, rest)
    {
      EntryCodec(row, bytes, rest);
    }
  }

  /** The bytes of the rows of a page are as many as the store counts. */
  lemma {:induction false} EntriesSize(rows: seq<Row>)
    ensures |EncAll(Entries(), rows)| == Used(EntrySize, rows)
  {
    if rows != [] {
      EntriesSize(rows[1..]);
      EntrySizeIs(rows[0]);
    }
  }

  lemma EntrySizeIs(row: Row)
    ensures |Entries().enc(row)| == EntrySize(row)
  {
  }

  // ---------- data pages ----------

  const DATA_MAGIC: Bytes := [67, 68, 66, 82, 80, 65, 71, 69]

  function DataHeader(count: nat, used: nat): (bs: Bytes)
    ensures |bs| == 20
  {
    DATA_MAGIC + LE(4, 1) + LE(4, count) + LE(4, used)
  }

  /** A page of rows, padded with zeros; none when the rows do not fit. */
  function BuildDataPage(size: nat, rows: seq<Row>): (r: Option<Bytes>) {
    var entries := EncAll(Entries(), rows);
    if 20 + |entries| > size then None
    else Some(DataHeader(|rows|, |entries|) + (entries + seq(size - 20 - |entries|, _ => 0)))
  }

  function ParseRows(count: nat, used: nat, body: Bytes): (r: Option<seq<Row>>) {
    if used > |body| then None
    else
      match ReadN(Entries(), count, body)
      case Fail => None
      case Got(rows, rest) => if |body| - |rest| != used then None else Some(rows)
  }

  function ParseDataPage(bytes: Bytes): (r: Option<seq<Row>>) {
    if |bytes| < 20 || bytes[..8] != DATA_MAGIC || UnLE(bytes[8..12]) != 1 then None
    else ParseRows(UnLE(bytes[12..16]), UnLE(bytes[16..20]), bytes[20..])
  }

  lemma HeaderParts(a: Bytes, b: Bytes, c: Bytes, d: Bytes, tail: Bytes)
    requires |a| == 8 && |b| == 4 && |c| == 4 && |d| == 4
    ensures var bytes := a + b + c + d + tail;
            bytes[..8] == a && bytes[8..12] == b && bytes[12..16] == c && bytes[16..20] == d && bytes[20..] == tail
  {
  }

  /** Only the low 32 bits of the counts are stored. */
  lemma DataHeaderBack(count: nat, used: nat, body: Bytes) returns (c: nat, u: nat)
    ensures c < Span(4) && (count < Span(4) ==> c == count)
    ensures u < Span(4) && (used < Span(4) ==> u == used)
    ensures ParseDataPage(DataHeader(count, used) + body) == ParseRows(c, u, body)
  {
    Spans();
    HeaderParts(DATA_MAGIC, LE(4, 1), LE(4, count), LE(4, used), body);
    UnLEOfLE(4, 1);
    if count < Span(4) { UnLEOfLE(4, count); }
    if used < Span(4) { UnLEOfLE(4, used); }
    c, u := UnLE(LE(4, count)), UnLE(LE(4, used));
  }

  lemma RowsBack(rows: seq<Row>, count: nat, used: nat, pad: Bytes)
    ensures var entries := EncAll(Entries(), rows);
            ParseRows(count, used, entries + pad) == Some(rows) <==>
            count == |rows| && used == |entries| && AllFit(Entries(), rows)
  {
    EntriesSound();
    var body := EncAll(Entries(), rows) + pad;
    ListCodec(Entries(), count, rows, body, pad);
    match ReadN(Entries(), count, body)
    case Fail =>
    case Got(_, rest) => ListCodec(Entries(), count, rows, body, rest);
  }

  lemma {:induction false} CountBelow(rows: seq<Row>)
    ensures |rows| <= |EncAll(Entries(), rows)|
  {
    if rows != [] { CountBelow(rows[1..]); }
  }

  lemma PageBytesBack(rows: seq<Row>, pad: Bytes)
    ensures var entries := EncAll(Entries(), rows);
            ParseDataPage(DataHeader(|rows|, |entries|) + (entries + pad)) == Some(rows) <==>
            |entries| < Span(4) && AllFit(Entries(), rows)
  {
    var entries := EncAll(Entries(), rows);
    CountBelow(rows);
    var c, u := DataHeaderBack(|rows|, |entries|, entries + pad);
    RowsBack(rows, c, u, pad);
  }

  /** Rows that are packed into a page are written as one page.  They are read back from it exactly when
      each of them is within the limits of the format and together they take less than 2^32 bytes. */
  lemma DataPageBack(size: nat, rows: seq<Row>)
    requires 20 + Used(EntrySize, rows) <= size
    ensures var r := BuildDataPage(size, rows);
            && r.Some? && |r.value| == size
            && (ParseDataPage(r.value) == Some(rows) <==>
                Used(EntrySize, rows) < Span(4) && forall i :: 0 <= i < |rows| ==> FitsEntry(rows[i]))
  {
    EntriesSize(rows);
    AllFitEntries(rows);
    PageBytesBack(rows, seq(size - 20 - |EncAll(Entries(), rows)|, _ => 0));
  }

  lemma AllFitEntries(rows: seq<Row>)
    ensures AllFit(Entries(), rows) <==> forall i :: 0 <= i < |rows| ==> FitsEntry(rows[i])
  {
    assert forall row: Row :: Entries().fits(row) == FitsEntry(row);
  }

  // ---------- rows of a page keep within the limits of the format ----------

  /** A row that takes less than 2^32 bytes is within the limits unless it has too many values. */
  lemma RowFits(row: Row)
    requires EntrySize(row) < Span(4) && row.rid < Span(8)
    ensures FitsEntry(row) <==> |row.tuple| <= MAX_VALUES
    ensures EntrySize(row) <= 0x40_0000 ==> FitsEntry(row)
  {
    Spans();
    ItemsAtLeast(row.tuple);
  }

  /** Every data page of a store is written.  It is read back exactly when its rows take less than 2^32
      bytes and none has more than 2^20 values; with pages of at most four megabytes that is always so. */
  lemma StorePagesBack(store: RowStore, i: nat)
    requires store.Valid() && store.entrySize == EntrySize && i < |store.pages| && store.nextRowId <= Span(8)
    ensures var rows := store.pages[i]; var r := BuildDataPage(store.pageSize, rows);
            && r.Some? && |r.value| == store.pageSize
            && (ParseDataPage(r.value) == Some(rows) <==>
                Used(EntrySize, rows) < Span(4) && PageReadable(rows))
            && (store.pageSize <= 0x40_0000 ==> ParseDataPage(r.value) == Some(rows))
  {
    Spans();
    var rows := store.pages[i];
    assert Used(store.entrySize, rows) <= store.Room();
    DataPageBack(store.pageSize, rows);
    if Used(EntrySize, rows) < Span(4) {
      ItemsFit(EntrySize, rows);
      forall j | 0 <= j < |rows|
        ensures FitsEntry(rows[j]) <==> |rows[j].tuple| <= MAX_VALUES
        ensures store.pageSize <= 0x40_0000 ==> FitsEntry(rows[j])
      {
        PageRowId(store, i, j);
        RowFits(rows[j]);
      }
    }
  }

  /** With pages below four gigabytes, the store can be read exactly when the bytes of each of its pages
      can. */
  lemma ReadableBytes(store: RowStore)
    requires store.Valid() && store.entrySize == EntrySize && store.nextRowId <= Span(8) && store.pageSize < Span(4)
    ensures forall i :: 0 <= i < |store.pages| ==> BuildDataPage(store.pageSize, store.pages[i]).Some?
    ensures store.Readable() <==>
            forall i :: 0 <= i < |store.pages| ==>
              ParseDataPage(BuildDataPage(store.pageSize, store.pages[i]).value) == Some(store.pages[i])
  {
    forall i | 0 <= i < |store.pages|
      ensures var r := BuildDataPage(store.pageSize, store.pages[i]);
              r.Some? && (ParseDataPage(r.value) == Some(store.pages[i]) <==> PageReadable(store.pages[i]))
    {
      StorePagesBack(store, i);
      assert Used(store.entrySize, store.pages[i]) <= store.Room();
    }
  }

  /** A row of too many values for which a page is large enough is stored, and then nothing can be read:
      its page does not parse, and looking for it fails. */
  method HugeRow(pageSize: nat, tuple: Tuple) returns (store: RowStore, stored: Status, found: Status)
    requires |tuple| > MAX_VALUES && EntrySize(Row(0, false, tuple)) <= pageSize - 20
    requires COUNTERS_SIZE <= pageSize
    ensures fresh(store) && stored.Ok? && store.Valid() && store.pages == [[Row(0, false, tuple)]]
    ensures found.InvalidArgument? && !store.Readable()
    ensures var r := BuildDataPage(pageSize, store.pages[0]);
            r.Some? && ParseDataPage(r.value) != Some(store.pages[0])
  {
    store := new RowStore(pageSize);
    var rid;
    ghost var k;
    stored, rid, k := store.Insert(tuple);
    assert !PageReadable(store.pages[0]);
    Spans();
    StorePagesBack(store, 0);
    var row;
    found, row := store.Get(rid);
  }

  lemma PageRowId(store: RowStore, i: nat, j: nat)
    requires store.Valid() && i < |store.pages| && j < |store.pages[i]|
    ensures store.pages[i][j].rid < store.nextRowId
  {
    InFlat(store.pages, i, j);
  }

  // ---------- the counter page ----------

  const STORE_MAGIC: Bytes := [67, 68, 66, 82, 83, 84, 82, 49]

  function BuildCounters(c: Counters): (bs: Bytes)
    ensures |bs| == 36
  {
    STORE_MAGIC + LE(4, 1) + LE(8, c.nextRowId) + LE(8, c.dataPages) + LE(8, c.activeRows)
  }

  function ParseCounters(bytes: Bytes): (r: Option<Counters>) {
    if |bytes| < 36 || bytes[..8] != STORE_MAGIC || UnLE(bytes[8..12]) != 1 then None
    else Some(Counters(UnLE(bytes[12..20]), UnLE(bytes[20..28]), UnLE(bytes[28..36])))
  }

  lemma CounterParts(a: Bytes, b: Bytes, c: Bytes, d: Bytes, e: Bytes, pad: Bytes)
    requires |a| == 8 && |b| == 4 && |c| == 8 && |d| == 8 && |e| == 8
    ensures var bytes := a + b + c + d + e + pad;
            bytes[..8] == a && bytes[8..12] == b && bytes[12..20] == c && bytes[20..28] == d && bytes[28..36] == e
  {
  }

  /** The counters on page 0 come back when the store is opened again. */
  lemma CountersBack(c: Counters, pad: Bytes)
    requires c.nextRowId < Span(8) && c.dataPages < Span(8) && c.activeRows < Span(8)
    ensures ParseCounters(BuildCounters(c) + pad) == Some(c)
  {
    Spans();
    CounterParts(STORE_MAGIC, LE(4, 1), LE(8, c.nextRowId), LE(8, c.dataPages), LE(8, c.activeRows), pad);
    UnLEOfLE(4, 1);
    UnLEOfLE(8, c.nextRowId);
    UnLEOfLE(8, c.dataPages);
    UnLEOfLE(8, c.activeRows);
  }
}
