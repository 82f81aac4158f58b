/** The heap of a table: rows packed into pages, with counters that are kept on page 0. */
module RowStores {
  import opened Common
  import opened Sequences
  import opened RecordCodecs
  import opened Packing

  /** The bytes that a row takes in a page: its size, then the row itself. */
  function EntrySize(row: Row): nat {
    4 + |EncRow(row)|
  }

  /** The size of an entry is that of its tuple plus a constant. */
  ghost predicate SizedByTuple(size: Row -> nat) {
    forall a: Row, b: Row :: a.tuple == b.tuple ==> size(a) == size(b)
  }

  lemma EntrySizes()
    ensures SizedByTuple(EntrySize)
  {
  }

  // ---------- rows by id ----------

  ghost predicate DistinctIds(rows: seq<Row>) {
    forall i, j :: 0 <= i < j < |rows| ==> rows[i].rid != rows[j].rid
  }

  ghost predicate IdsBelow(rows: seq<Row>, next: nat) {
    forall i :: 0 <= i < |rows| ==> rows[i].rid < next
  }

  /** The place of the row with an id, or the number of rows. */
  ghost function IndexOf(rows: seq<Row>, rid: nat): (i: nat)
    ensures i <= |rows|
    ensures i < |rows| ==> rows[i].rid == rid
    ensures forall j :: 0 <= j < i ==> rows[j].rid != rid
  {
    if rows == [] || rows[0].rid == rid then 0 else 1 + IndexOf(rows[1..], rid)
  }

  /** The rows that are not deleted, in heap order. */
  function Live(rows: seq<Row>): seq<Row> {
    if rows == [] then []
    else if rows[0].deleted then Live(rows[1..])
    else [rows[0]] + Live(rows[1..])
  }

  lemma {:induction false} LiveConcat(a: seq<Row>, b: seq<Row>)
    ensures Live(a + b) == Live(a) + Live(b)
  {
    if a == [] {
      assert a + b == b;
    } else {
      LiveConcat(a[1..], b);
      assert (a + b)[0] == a[0] && (a + b)[1..] == a[1..] + b;
      Associative([a[0]], Live(a[1..]), Live(b));
    }
  }

  function LiveOne(row: Row): seq<Row> {
    if row.deleted then [] else [row]
  }

  /** The live rows around one place. */
  lemma LiveAround(a: seq<Row>, row: Row, b: seq<Row>)
    ensures Live(a + [row] + b) == Live(a) + LiveOne(row) + Live(b)
  {
    LiveConcat(a + [row], b);
    LiveConcat(a, [row]);
    assert Live([row]) == LiveOne(row);
  }

  lemma LiveAt(rows: seq<Row>, i: nat)
    requires i < |rows|
    ensures Live(rows) == Live(rows[..i]) + LiveOne(rows[i]) + Live(rows[i + 1..])
  {
    LiveAround(rows[..i], rows[i], rows[i + 1..]);
    SplitAt(rows, i);
  }

  lemma LiveReplaced(rows: seq<Row>, i: nat, row: Row)
    requires i < |rows|
    ensures Live(rows[i := row]) == Live(rows[..i]) + LiveOne(row) + Live(rows[i + 1..])
    ensures |Live(rows[i := row])| + |LiveOne(rows[i])| == |Live(rows)| + |LiveOne(row)|
  {
    LiveAround(rows[..i], row, rows[i + 1..]);
    Replaced(rows, i, row);
    LiveAt(rows, i);
  }

  lemma ReplacedIds(rows: seq<Row>, i: nat, row: Row, next: nat)
    requires i < |rows| && row.rid == rows[i].rid && DistinctIds(rows) && IdsBelow(rows, next)
    ensures DistinctIds(rows[i := row]) && IdsBelow(rows[i := row], next)
  {
    assert forall j :: 0 <= j < |rows| ==> rows[i := row][j].rid == rows[j].rid;
  }

  lemma AppendedIds(rows: seq<Row>, row: Row, next: nat)
    requires IndexOf(rows, row.rid) == |rows| && DistinctIds(rows) && IdsBelow(rows, next)
    ensures DistinctIds(rows + [row]) && IdsBelow(rows + [row], Max(next, row.rid + 1))
  {
    var after := rows + [row];
    assert forall j :: 0 <= j < |rows| ==> after[j] == rows[j];
    assert after[|rows|] == row;
  }

  /** The heap after a row came back: in its old place, or at the end. */
  ghost function Restored(rows: seq<Row>, row: Row): seq<Row> {
    var i := IndexOf(rows, row.rid);
    if i < |rows| then rows[i := row] else rows + [row]
  }

  /** The rows of a page can be read back: none has more values than the format admits. */
  predicate PageReadable(rows: seq<Row>) {
    forall i :: 0 <= i < |rows| ==> |rows[i].tuple| <= MAX_VALUES
  }

  // ---------- where a row goes ----------

  /** The first page with room for `size` more bytes, or the number of pages. */
  ghost predicate FirstRoom(f: Row -> nat, pages: seq<seq<Row>>, o: nat, size: nat, room: int) {
    && o <= |pages|
    && (forall j :: 0 <= j < o ==> Used(f, pages[j]) + size > room)
    && (o < |pages| ==> Used(f, pages[o]) + size <= room)
  }

  function Placed(pages: seq<seq<Row>>, o: nat, row: Row): seq<seq<Row>>
    requires o <= |pages|
  {
    if o < |pages| then pages[o := pages[o] + [row]] else pages + [[row]]
  }

  lemma PlacedBy(pages: seq<seq<Row>>, o: nat, row: Row)
    requires o <= |pages|
    ensures var room := if o < |pages| then pages else pages + [[]];
            room[o := room[o] + [row]] == Placed(pages, o, row)
  {
    assert [] + [row] == [row];
    assert o == |pages| ==> (pages + [[]])[o := [row]] == pages + [[row]];
  }

  /** Placing a row keeps all others in their order. */
  lemma PlacedRow(pages: seq<seq<Row>>, o: nat, row: Row) returns (k: nat)
    requires o <= |pages|
    ensures k <= |Flat(pages)| && Flat(Placed(pages, o, row)) == InsertAt(Flat(pages), k, row)
  {
    if o < |pages| {
      k := AddedItem(pages, o, row);
    } else {
      k := |Flat(pages)|;
      FlatSnoc(pages, [row]);
      assert Flat(pages)[..k] == Flat(pages) && Flat(pages)[k..] == [];
      assert Flat(pages) + [row] + [] == Flat(pages) + [row];
    }
  }

  lemma PlacedPacked(f: Row -> nat, pages: seq<seq<Row>>, o: nat, row: Row, room: int)
    requires Packed(f, pages, room) && FirstRoom(f, pages, o, f(row), room) && f(row) <= room
    ensures Packed(f, Placed(pages, o, row), room)
  {
    UsedSnoc(f, if o < |pages| then pages[o] else [], row);
    assert [] + [row] == [row];
  }

  lemma InsertedIds(rows: seq<Row>, k: nat, row: Row)
    requires k <= |rows| && DistinctIds(rows) && IdsBelow(rows, row.rid)
    ensures DistinctIds(InsertAt(rows, k, row)) && IdsBelow(InsertAt(rows, k, row), row.rid + 1)
  {
    var more := InsertAt(rows, k, row);
    assert forall i :: 0 <= i < |more| ==> more[i] == if i < k then rows[i] else if i == k then row else rows[i - 1];
  }

  lemma InsertedLive(rows: seq<Row>, k: nat, row: Row)
    requires k <= |rows|
    ensures Live(InsertAt(rows, k, row)) == Live(rows[..k]) + LiveOne(row) + Live(rows[k..])
    ensures |Live(InsertAt(rows, k, row))| == |Live(rows)| + |LiveOne(row)|
  {
    LiveAround(rows[..k], row, rows[k..]);
    LiveConcat(rows[..k], rows[k..]);
    Halves(rows, k);
  }

  // ---------- the store ----------

  /** The bytes of the counters. */
  const COUNTERS_SIZE: nat := 36

  /** Page 0: the counters. */
  datatype Counters = Counters(nextRowId: nat, dataPages: nat, activeRows: nat)

  class RowStore {
    const pageSize: nat
    const entrySize: Row -> nat  // the bytes that a row takes in a page

    var pages: seq<seq<Row>>  // the data pages
    var nextRowId: nat
    var activeRows: nat
    var saved: Counters       // what page 0 holds

    /** What a page has left for rows behind its header. */
    function Room(): int {
      pageSize - 20
    }

    ghost function Heap(): seq<Row>
      reads this
    {
      Flat(pages)
    }

    ghost predicate Valid()
      reads this
    {
      && SizedByTuple(entrySize)
      && Packed(entrySize, pages, Room())
      && DistinctIds(Heap())
      && IdsBelow(Heap(), nextRowId)
      && activeRows == |Live(Heap())|
      && saved == Counters(nextRowId, |pages|, activeRows)
    }

    /** Every page can be read back. */
    ghost predicate Readable()
      reads this
    {
      forall i :: 0 <= i < |pages| ==> PageReadable(pages[i])
    }

    constructor (pageSize: nat)
      requires COUNTERS_SIZE <= pageSize
      ensures Valid() && pages == [] && Heap() == [] && nextRowId == 0
      ensures this.pageSize == pageSize && entrySize == EntrySize
    {
      this.pageSize, entrySize := pageSize, EntrySize;
      pages, nextRowId, activeRows, saved := [], 0, 0, Counters(0, 0, 0);
      EntrySizes();
    }

    /** A new store is refused when its counters do not fit page 0. */
    static method Create(pageSize: nat) returns (status: Status, store: RowStore?)
      ensures status == if pageSize < COUNTERS_SIZE then InternalError else Ok
      ensures store != null <==> status.Ok?
      ensures status.Ok? ==> fresh(store) && store.Valid() && store.Heap() == [] && store.pageSize == pageSize
    {
      if pageSize < COUNTERS_SIZE {
        return InternalError, null;
      }
      store := new RowStore(pageSize);
      status := Ok;
    }

    /** Opening a store again: the counters come from page 0. */
    constructor Reopen(before: RowStore)
      requires before.Valid()
      ensures Valid()
      ensures pageSize == before.pageSize && entrySize == before.entrySize
      ensures pages == before.pages && nextRowId == before.nextRowId && activeRows == before.activeRows
    {
      pageSize, entrySize := before.pageSize, before.entrySize;
      saved := before.saved;
      nextRowId, activeRows := before.saved.nextRowId, before.saved.activeRows;
      pages := before.pages[..before.saved.dataPages];
      assert before.pages[..|before.pages|] == before.pages;
    }

    method FindPageWithFreeSpace(size: nat) returns (status: Status, o: nat)
      modifies this`pages
      ensures status == if size > Room() then InvalidArgument else Ok
      ensures !status.Ok? ==> pages == old(pages)
      ensures status.Ok? ==> FirstRoom(entrySize, old(pages), o, size, Room())
      ensures status.Ok? ==> pages == if o < |old(pages)| then old(pages) else old(pages) + [[]]
    {
      o := 0;
      if size > Room() {
        return InvalidArgument, o;
      }
      while o < |pages|
        invariant o <= |pages|
        invariant forall j :: 0 <= j < o ==> Used(entrySize, pages[j]) + size > Room()
      {
        if Used(entrySize, pages[o]) + size <= Room() {
          return Ok, o;
        }
        o := o + 1;
      }
      pages := pages + [[]];
      status := Ok;
    }

    /** The first page with room can be read. */
    ghost predicate RoomReadable(size: nat)
      reads this
    {
      forall o: nat :: FirstRoom(entrySize, pages, o, size, Room()) && o < |pages| ==> PageReadable(pages[o])
    }

    /** The row was added to the first page with room, or to a new page when there is none. */
    ghost predicate FirstFit(before: seq<seq<Row>>, row: Row, after: seq<seq<Row>>) {
      exists o: nat :: FirstRoom(entrySize, before, o, entrySize(row), Room()) && after == Placed(before, o, row)
    }

    method WriteMetadataPage()
      modifies this`saved
      ensures saved == Counters(nextRowId, |pages|, activeRows)
    {
      saved := Counters(nextRowId, |pages|, activeRows);
    }

    /** Adds a live row under the next id to the first page with room; no other row moves. */
    method Insert(tuple: Tuple) returns (status: Status, rid: nat, ghost k: nat)
      requires Valid()
      modifies this
      ensures Valid()
      ensures status == var size := entrySize(Row(old(nextRowId), false, tuple));
                        if size > Room() || !old(RoomReadable(size)) then InvalidArgument else Ok
      ensures !status.Ok? ==> unchanged(this)
      ensures status.Ok? ==> FirstFit(old(pages), Row(old(nextRowId), false, tuple), pages)
      ensures status.Ok? ==> rid == old(nextRowId) && nextRowId == rid + 1
      ensures status.Ok? ==> k <= |old(Heap())| && Heap() == InsertAt(old(Heap()), k, Row(rid, false, tuple))
    {
      var row := Row(nextRowId, false, tuple);
      rid, k := nextRowId, 0;
      var size := entrySize(row);
      var o;
      status, o := FindPageWithFreeSpace(size);
      if !status.Ok? {
        return;
      }
      ghost var was := old(pages);
      OnlyFirst(was, o, size);
      if !PageReadable(pages[o]) {
        return InvalidArgument, rid, k;
      }
      PlacedBy(was, o, row);
      pages := pages[o := pages[o] + [row]];
      k := PlacedRow(was, o, row);
      PlacedPacked(entrySize, was, o, row, Room());
      InsertedIds(Flat(was), k, row);
      InsertedLive(Flat(was), k, row);
      nextRowId := nextRowId + 1;
      activeRows := activeRows + 1;
      WriteMetadataPage();
      status := Ok;
    }

    /** There is only one first page with room. */
    lemma OnlyFirst(pages: seq<seq<Row>>, o: nat, size: nat)
      requires FirstRoom(entrySize, pages, o, size, Room())
      ensures forall p: nat :: FirstRoom(entrySize, pages, p, size, Room()) ==> p == o
    {
    }

    /** All rows, page by page; fails at the first page that cannot be read. */
    method LoadAllRows() returns (status: Status, rows: seq<Row>)
      ensures status == if Readable() then Ok else InvalidArgument
      ensures status.Ok? ==> rows == Heap()
    {
      rows := [];
      for ordinal := 0 to |pages|
        invariant rows == Flat(pages[..ordinal])
        invariant forall i :: 0 <= i < ordinal ==> PageReadable(pages[i])
      {
        if !PageReadable(pages[ordinal]) {
          return InvalidArgument, rows;
        }
        FlatSnoc(pages[..ordinal], pages[ordinal]);
        assert pages[..ordinal + 1] == pages[..ordinal] + [pages[ordinal]];
        rows := rows + pages[ordinal];
      }
      assert pages[..|pages|] == pages;
      status := Ok;
    }

    static method FindRowIndexById(rows: seq<Row>, rid: nat) returns (r: Option<nat>)
      ensures r == if IndexOf(rows, rid) < |rows| then Some(IndexOf(rows, rid)) else None
    {
      for i := 0 to |rows|
        invariant forall j :: 0 <= j < i ==> rows[j].rid != rid
      {
        if rows[i].rid == rid {
          return Some(i);
        }
      }
      r := None;
    }

    // ---------- rewriting ----------

    /** No packing of the rows in this order needs fewer pages. */
    ghost predicate Fewest(used: nat, rows: seq<Row>) {
      forall parts :: Packed(entrySize, parts, Room()) && Flat(parts) == rows ==> used <= |parts|
    }

    /** The first `used` pages hold the rows, as few pages as any packing in this order needs. */
    ghost predicate Tidy(pages: seq<seq<Row>>, used: nat, rows: seq<Row>) {
      && used <= |pages|
      && Flat(pages[..used]) == rows
      && Greedy(entrySize, pages[..used], Room())
      && (forall i :: used <= i < |pages| ==> pages[i] == [])
      && Fewest(used, rows)
    }

    /** The heap takes no more pages than it must. */
    ghost predicate Compact()
      reads this
    {
      exists used: nat :: Tidy(pages, used, Heap())
    }

    /** Writes all rows anew.  A row too large for a page is found before any page is changed. */
    method RewriteAllRows(rows: seq<Row>) returns (status: Status, ghost used: nat)
      requires Packed(entrySize, pages, Room())
      modifies this`pages, this`saved
      ensures status == if EachFits(entrySize, rows, Room()) then Ok else InvalidArgument
      ensures !status.Ok? ==> pages == old(pages) && saved == old(saved)
      ensures status.Ok? ==> Tidy(pages, used, rows) && |pages| == Max(|old(pages)|, used)
      ensures status.Ok? ==> Heap() == rows && Packed(entrySize, pages, Room())
      ensures status.Ok? ==> saved == Counters(nextRowId, |pages|, activeRows)
    {
      var packed := PackGreedily(entrySize, rows, Room());
      used := 0;
      if packed.None? {
        return InvalidArgument, used;
      }
      var batches := packed.value;
      used := |batches|;
      assert pages == [] || Room() >= Used(entrySize, pages[0]);
      assert batches == [] || Room() >= Used(entrySize, batches[0]);
      while |pages| < |batches|
        invariant |old(pages)| <= |pages| <= Max(|old(pages)|, |batches|)
      {
        pages := pages + [[]];
      }
      WriteBatches(batches);
      WriteMetadataPage();
      PaddedBatches(pages, batches);
      status := Ok;
    }

    method WriteBatches(batches: seq<seq<Row>>)
      requires |batches| <= |pages|
      modifies this`pages
      ensures |pages| == old(|pages|)
      ensures forall i :: 0 <= i < |pages| ==> pages[i] == if i < |batches| then batches[i] else []
    {
      for i := 0 to |pages|
        invariant |pages| == old(|pages|)
        invariant forall j :: 0 <= j < i ==> pages[j] == if j < |batches| then batches[j] else []
      {
        if i < |batches| {
          pages := pages[i := batches[i]];
        } else {
          pages := pages[i := []];
        }
      }
    }

    lemma BatchesFewest(batches: seq<seq<Row>>)
      requires Greedy(entrySize, batches, Room())
      ensures Fewest(|batches|, Flat(batches))
    {
      forall parts | Packed(entrySize, parts, Room()) && Flat(parts) == Flat(batches)
        ensures |batches| <= |parts|
      {
        GreedyIsOptimal(entrySize, batches, parts, Room());
      }
    }

    static lemma PaddedFlat(pages: seq<seq<Row>>, batches: seq<seq<Row>>)
      requires |batches| <= |pages|
      requires forall i :: 0 <= i < |pages| ==> pages[i] == if i < |batches| then batches[i] else []
      ensures pages[..|batches|] == batches && Flat(pages) == Flat(batches)
    {
      var used := |batches|;
      EmptyPages(pages[used..]);
      FlatConcat(pages[..used], pages[used..]);
      Halves(pages, used);
    }

    lemma PaddedBatches(pages: seq<seq<Row>>, batches: seq<seq<Row>>)
      requires |batches| <= |pages| && Greedy(entrySize, batches, Room())
      requires forall i :: 0 <= i < |pages| ==> pages[i] == if i < |batches| then batches[i] else []
      ensures Tidy(pages, |batches|, Flat(batches)) && Flat(pages) == Flat(batches)
      ensures pages == [] || Room() >= 0 ==> Packed(entrySize, pages, Room())
    {
      PaddedFlat(pages, batches);
      BatchesFewest(batches);
    }

    static lemma {:induction false} EmptyPages(pages: seq<seq<Row>>)
      requires forall i :: 0 <= i < |pages| ==> pages[i] == []
      ensures Flat(pages) == []
    {
      if pages != [] { EmptyPages(pages[1..]); }
    }

    // ---------- operations on one row ----------

    /** The row with an id, deleted or not. */
    method GetIncludingDeleted(rid: nat) returns (status: Status, row: Option<Row>)
      requires Valid()
      ensures var i := IndexOf(Heap(), rid);
              && status == (if !Readable() then InvalidArgument else if i < |Heap()| then Ok else NotFound)
              && row == if status.Ok? then Some(Heap()[i]) else None
    {
      row := None;
      var rows;
      status, rows := LoadAllRows();
      if !status.Ok? {
        return;
      }
      var index := FindRowIndexById(rows, rid);
      if index.None? {
        return NotFound, None;
      }
      row := Some(rows[index.value]);
    }

    /** The live row with an id. */
    method Get(rid: nat) returns (status: Status, row: Option<Row>)
      requires Valid()
      ensures var i := IndexOf(Heap(), rid);
              && status == (if !Readable() then InvalidArgument
                            else if i < |Heap()| && !Heap()[i].deleted then Ok else NotFound)
              && row == if status.Ok? then Some(Heap()[i]) else None
    {
      status, row := GetIncludingDeleted(rid);
      if status.Ok? && row.value.deleted {
        status, row := NotFound, None;
      }
    }

    /** Replaces the tuple of a live row, in its place. */
    method Update(rid: nat, tuple: Tuple) returns (status: Status)
      requires Valid()
      modifies this
      ensures Valid() && nextRowId == old(nextRowId)
      ensures var h, i := old(Heap()), IndexOf(old(Heap()), rid);
              && status == (if !old(Readable()) then InvalidArgument
                            else if i == |h| || h[i].deleted then NotFound
                            else if entrySize(h[i].(tuple := tuple)) > Room() then InvalidArgument else Ok)
              && Heap() == if status.Ok? then h[i := h[i].(tuple := tuple)] else h
      ensures status.Ok? ==> Compact()
      ensures !status.Ok? ==> unchanged(this)
    {
      var rows;
      status, rows := LoadAllRows();
      if !status.Ok? {
        return;
      }
      var index := FindRowIndexById(rows, rid);
      if index.None? || rows[index.value].deleted {
        return NotFound;
      }
      var i := index.value;
      var row := rows[i].(tuple := tuple);
      ReplacedSizes(rows, i, row);
      ReplacedIds(rows, i, row, nextRowId);
      LiveReplaced(rows, i, row);
      ghost var used;
      status, used := RewriteAllRows(rows[i := row]);
    }

    /** Marks a row as deleted, in its place; deleting it again changes nothing. */
    method Delete(rid: nat) returns (status: Status)
      requires Valid()
      modifies this
      ensures Valid() && nextRowId == old(nextRowId)
      ensures var h, i := old(Heap()), IndexOf(old(Heap()), rid);
              && status == (if !old(Readable()) then InvalidArgument else if i == |h| then NotFound else Ok)
              && Heap() == if status.Ok? then h[i := h[i].(deleted := true)] else h
    {
      var rows;
      status, rows := LoadAllRows();
      if !status.Ok? {
        return;
      }
      var index := FindRowIndexById(rows, rid);
      if index.None? {
        return NotFound;
      }
      var i := index.value;
      if rows[i].deleted {
        assert rows[i := rows[i].(deleted := true)] == rows;
        return Ok;
      }
      status := MarkDeleted(rows, i);
    }

    method MarkDeleted(rows: seq<Row>, i: nat) returns (status: Status)
      requires Valid() && rows == Heap() && i < |rows| && !rows[i].deleted
      modifies this
      ensures Valid() && nextRowId == old(nextRowId)
      ensures status.Ok? && Heap() == rows[i := rows[i].(deleted := true)] && Compact()
    {
      var row := rows[i].(deleted := true);
      ReplacedSizes(rows, i, row);
      ReplacedIds(rows, i, row, nextRowId);
      LiveReplaced(rows, i, row);
      activeRows := activeRows - 1;
      ghost var used;
      status, used := RewriteAllRows(rows[i := row]);
    }

    /** The row with this id is there and not deleted. */
    ghost predicate IsLive(rid: nat)
      reads this
    {
      IndexOf(Heap(), rid) < |Heap()| && !Heap()[IndexOf(Heap(), rid)].deleted
    }

    /** Brings a row back.  When it is too large the pages stay as they are, but the counters in memory
        have already moved on: a store that can be read is still valid exactly when the row fits, or is
        live. */
    method Restore(row: Row) returns (status: Status)
      requires Valid()
      modifies this
      ensures status == if !old(Readable()) || entrySize(row) > Room() then InvalidArgument else Ok
      ensures !old(Readable()) ==> unchanged(this)
      ensures old(Readable()) ==>
                && nextRowId == Max(old(nextRowId), row.rid + 1)
                && activeRows == |Live(Restored(old(Heap()), row.(deleted := false)))|
      ensures status.Ok? ==> Heap() == Restored(old(Heap()), row.(deleted := false)) && Compact()
      ensures !status.Ok? ==> pages == old(pages) && saved == old(saved)
      ensures Valid() <==> !old(Readable()) || entrySize(row) <= Room() || old(IsLive(row.rid))
    {
      var rows;
      status, rows := LoadAllRows();
      if !status.Ok? {
        return;
      }
      var index := FindRowIndexById(rows, row.rid);
      RestoredRows(rows, row);
      if index.Some? {
        if rows[index.value].deleted {
          activeRows := activeRows + 1;
        }
        rows := rows[index.value := row.(deleted := false)];
      } else {
        activeRows := activeRows + 1;
        rows := rows + [row.(deleted := false)];
      }
      nextRowId := Max(nextRowId, row.rid + 1);
      ghost var used;
      status, used := RewriteAllRows(rows);
    }

    lemma RestoredRows(rows: seq<Row>, row: Row)
      requires Valid() && rows == Heap()
      ensures var i, after := IndexOf(rows, row.rid), Restored(rows, row.(deleted := false));
              && DistinctIds(after) && IdsBelow(after, Max(nextRowId, row.rid + 1))
              && (EachFits(entrySize, after, Room()) <==> entrySize(row) <= Room())
              && |Live(after)| == |Live(rows)| + if i < |rows| && !rows[i].deleted then 0 else 1
    {
      var i, back := IndexOf(rows, row.rid), row.(deleted := false);
      assert entrySize(back) == entrySize(row);
      if i < |rows| {
        ReplacedSizes(rows, i, back);
        ReplacedIds(rows, i, back, nextRowId);
        LiveReplaced(rows, i, back);
      } else {
        AppendedSizes(rows, back);
        AppendedIds(rows, back, nextRowId);
        LiveConcat(rows, [back]);
        assert Live([back]) == [back];
      }
    }

    /** The live rows in heap order. */
    method Scan() returns (status: Status, out: seq<Row>)
      requires Valid()
      ensures status == if Readable() then Ok else InvalidArgument
      ensures status.Ok? ==> out == Live(Heap()) && |out| == activeRows
    {
      var rows;
      status, rows := LoadAllRows();
      out := [];
      if !status.Ok? {
        return;
      }
      for i := 0 to |rows|
        invariant out == Live(rows[..i])
      {
        LiveConcat(rows[..i], [rows[i]]);
        assert rows[..i + 1] == rows[..i] + [rows[i]];
        assert Live([rows[i]]) == LiveOne(rows[i]);
        if !rows[i].deleted {
          out := out + [rows[i]];
        }
      }
      assert rows[..|rows|] == rows;
    }

    // ---------- why a rewrite succeeds ----------

    /** Replacing one row of the heap is refused exactly when the new row is too large. */
    lemma ReplacedSizes(rows: seq<Row>, i: nat, row: Row)
      requires Valid() && rows == Heap() && i < |rows|
      ensures EachFits(entrySize, rows[i := row], Room()) <==> entrySize(row) <= Room()
      ensures row.tuple == rows[i].tuple ==> entrySize(row) <= Room()
    {
      PackedFits(entrySize, pages, Room());
      FitsReplaced(entrySize, rows, i, row, Room());
      assert row.tuple == rows[i].tuple ==> entrySize(row) == entrySize(rows[i]);
    }

    lemma AppendedSizes(rows: seq<Row>, row: Row)
      requires Valid() && rows == Heap()
      ensures EachFits(entrySize, rows + [row], Room()) <==> entrySize(row) <= Room()
    {
      PackedFits(entrySize, pages, Room());
      FitsAppended(entrySize, rows, row, Room());
    }
  }

  /** Any row that is too large for a page does it: restored into a new store it is refused, but the
      counters then say that there is a row. */
  method RestoreTooLarge(pageSize: nat, row: Row) returns (store: RowStore, status: Status)
    requires COUNTERS_SIZE <= pageSize && EntrySize(row) > pageSize - 20
    ensures fresh(store) && status.InvalidArgument? && !store.Valid()
    ensures store.Heap() == [] && store.activeRows == 1 && store.nextRowId == row.rid + 1
  {
    store := new RowStore(pageSize);
    status := store.Restore(row);
    LiveConcat([], [row.(deleted := false)]);
  }

  function Max(a: nat, b: nat): nat {
    if a < b then b else a
  }
}
