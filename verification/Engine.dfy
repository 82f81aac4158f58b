/** One table of the storage node: its heap, its unique indexes and its version log. */
module Engine {
  import opened Common
  import opened Sequences
  import opened Values
  import opened BinaryIo
  import opened RecordCodecs
  import opened VersionLogs
  import opened RowStores
  import opened TableState
  import opened TableStorages
  import opened BStarTree
  import opened IndexSet

  class TableEngine {
    const table: Bytes
    const storage: TableStorage
    const columns: seq<nat>   // the indexed column of each index
    const trees: seq<Index>   // the index files
    const versions: VersionLog

    var indexesOpen: bool     // this process has opened the indexes

    /** The records that were appended to the version log. */
    ghost function Log(): seq<VersionRecord>
      reads versions
    {
      versions.records
    }

    /** What the version log holds, and the bytes of its file. */
    ghost function Journal(): (seq<VersionRecord>, Bytes)
      reads versions
    {
      (versions.records, versions.body)
    }

    /** The log has one record more. */
    static ghost predicate Logged(before: (seq<VersionRecord>, Bytes), r: VersionRecord,
                                  after: (seq<VersionRecord>, Bytes)) {
      after.0 == before.0 + [r] && after.1 == before.1 + EncFrame(r)
    }

    ghost function Maps(): (m: seq<map<Value, nat>>)
      reads trees
      ensures |m| == |trees|
      ensures forall i :: 0 <= i < |trees| ==> m[i] == trees[i].Contents
    {
      seq(|trees|, i requires 0 <= i < |trees| reads trees => trees[i].Contents)
    }

    /** Every index agrees with the live rows. */
    ghost predicate InStep(heap: seq<Row>, maps: seq<map<Value, nat>>) {
      && |maps| == |columns|
      && (forall i {:trigger Agrees(heap, columns[i], maps[i])} :: 0 <= i < |maps| ==>
            Agrees(heap, columns[i], maps[i]))
    }

    /** Heap and indexes are well-formed and agree. */
    ghost predicate Valid()
      reads storage.rows, trees
    {
      && table != []
      && storage.schema != []
      && Lined(trees, columns, |storage.schema|)
      && storage.Valid()
      && AllTodo(trees, 0, Maps())
      && InStep(storage.Heap(), Maps())
    }

    ghost function Heap(): seq<Row>
      reads storage.rows
    {
      storage.Heap()
    }

    /** A new table: an empty heap, empty indexes, which are open, and an empty log. */
    constructor (table: Bytes, storage: TableStorage, columns: seq<nat>, trees: seq<Index>, versions: VersionLog)
      requires table != [] && storage.schema != [] && Lined(trees, columns, |storage.schema|)
      requires storage.Valid() && storage.Heap() == []
      requires forall i :: 0 <= i < |trees| ==> Todo(trees[i], map[])
      requires versions.body == [] && versions.records == []
      ensures Valid() && Log() == [] && versions.Intact() && indexesOpen
      ensures this.table == table && this.storage == storage && this.columns == columns && this.trees == trees
      ensures this.versions == versions
    {
      this.table, this.storage, this.columns, this.trees := table, storage, columns, trees;
      this.versions, indexesOpen := versions, true;
      new;
      AllEmpty();
    }

    lemma AllEmpty()
      requires |trees| == |columns| && storage.Heap() == [] && forall i :: 0 <= i < |trees| ==> Todo(trees[i], map[])
      ensures AllTodo(trees, 0, Maps()) && InStep(storage.Heap(), Maps())
    {
      forall i | 0 <= i < |trees|
        ensures Todo(trees[i], Maps()[i]) && Agrees(storage.Heap(), columns[i], Maps()[i])
      {
        assert Todo(trees[i], map[]);
      }
    }

    // ---------- a new process ----------

    /** A new process finds the files of an old one; it opens no index before the first mutation. */
    constructor Reopen(before: TableEngine)
      requires before.Valid()
      ensures Valid() && !indexesOpen && Journal() == before.Journal()
      ensures table == before.table && columns == before.columns && storage.schema == before.storage.schema
      ensures |trees| == |before.trees| && forall i :: 0 <= i < |trees| ==> Same(trees[i], before.trees[i])
      ensures Heap() == before.Heap() && Maps() == before.Maps()
      ensures storage.rows.nextRowId == before.storage.rows.nextRowId
      ensures storage.rows.entrySize == before.storage.rows.entrySize &&
              storage.rows.Room() == before.storage.rows.Room()
      ensures fresh(storage.rows) && fresh(trees) && fresh(versions)
    {
      table, columns, indexesOpen := before.table, before.columns, false;
      var rows := new RowStore.Reopen(before.storage.rows);
      storage := new TableStorage(before.storage.schema, rows);
      var reopened := ReopenAll(before.trees, before.Maps());
      trees := reopened;
      versions := new VersionLog.Reopen(before.versions);
      new;
      assert Maps() == before.Maps();
    }

    /** The same kind of index. */
    static ghost predicate Same(a: Index, b: Index) {
      a.degree == b.degree && a.keyType == b.keyType && a.maxKeyBytes == b.maxKeyBytes
    }

    static method ReopenAll(trees: seq<Index>, ghost maps: seq<map<Value, nat>>) returns (r: seq<Index>)
      requires |maps| == |trees| && AllTodo(trees, 0, maps)
      ensures |r| == |trees| && fresh(r)
      ensures forall i, j :: 0 <= i < j < |r| ==> r[i] != r[j]
      ensures forall i :: 0 <= i < |r| ==> Todo(r[i], maps[i]) && Same(r[i], trees[i])
    {
      r := [];
      for n := 0 to |trees|
        invariant |r| == n && fresh(r)
        invariant forall i, j :: 0 <= i < j < |r| ==> r[i] != r[j]
        invariant forall i :: 0 <= i < |r| ==> Todo(r[i], maps[i]) && Same(r[i], trees[i])
      {
        assert Todo(trees[n], maps[n]);
        var tree := new Index.Reopen(trees[n]);
        r := r + [tree];
      }
    }

    // ---------- one row changes ----------

    /** The indexes after a row and its keys were exchanged. */
    lemma StillInStep(heap: seq<Row>, maps: seq<map<Value, nat>>, heap': seq<Row>, rid: nat,
                      before: Option<Tuple>, after: Option<Tuple>)
      requires |trees| == |columns| && InStep(heap, maps)
      requires LiveSwap(heap, heap', rid, before, after)
      requires AllDone(trees, columns, |trees|, maps, before, after, rid)
      ensures InStep(heap', Maps()) && AllTodo(trees, 0, Maps())
    {
      forall i | 0 <= i < |trees|
        ensures Agrees(heap', columns[i], Maps()[i]) && Todo(trees[i], Maps()[i])
      {
        var c := columns[i];
        assert Done(trees[i], maps[i], KeyAt(before, c), KeyAt(after, c), rid);
        assert Agrees(heap, c, maps[i]);
        AgreesSwap(heap, heap', rid, before, after, c, maps[i]);
      }
    }

    /** The keys of a live row are in the indexes, under its id. */
    lemma KeysPresent(heap: seq<Row>, maps: seq<map<Value, nat>>, rid: nat, t: Tuple)
      requires |trees| == |columns| && InStep(heap, maps) && AllTodo(trees, 0, maps)
      requires Row(rid, false, t) in heap
      ensures Present(columns, maps, t, rid)
      ensures AllAdmit(trees, columns, maps, Some(t), None)
    {
      forall i | 0 <= i < |trees|
        ensures KeyAt(Some(t), columns[i]).Some? ==>
                  var k := KeyAt(Some(t), columns[i]).value; k in maps[i] && maps[i][k] == rid && trees[i].ValidKey(k)
      {
        if KeyAt(Some(t), columns[i]).Some? {
          var k := KeyAt(Some(t), columns[i]).value;
          assert Agrees(heap, columns[i], maps[i]) && Todo(trees[i], maps[i]);
          assert Owns(heap, columns[i], k, rid);
        }
      }
    }

    /** An index that refused the new key of a row no longer agrees with the rows. */
    lemma OutOfStep(heap: seq<Row>, maps: seq<map<Value, nat>>, heap': seq<Row>, rid: nat,
                    before: Option<Tuple>, after: Option<Tuple>)
      requires |trees| == |columns| && InStep(heap, maps)
      requires LiveSwap(heap, heap', rid, before, after)
      requires AnyStuck(trees, columns, maps, before, after)
      ensures !InStep(heap', Maps())
    {
      var i :| 0 <= i < |trees| && Stuck(trees[i], maps[i], KeyAt(before, columns[i]), KeyAt(after, columns[i]));
      assert Agrees(heap, columns[i], maps[i]);
      StuckDisagrees(trees[i], heap, maps[i], heap', rid, before, after, columns[i]);
      assert !Agrees(heap', columns[i], Maps()[i]);
    }

    static lemma StuckDisagrees(tree: Index, heap: seq<Row>, m: map<Value, nat>, heap': seq<Row>, rid: nat,
                                before: Option<Tuple>, after: Option<Tuple>, c: nat)
      requires Agrees(heap, c, m) && LiveSwap(heap, heap', rid, before, after)
      requires Stuck(tree, m, KeyAt(before, c), KeyAt(after, c))
      ensures !Agrees(heap', c, tree.Contents)
    {
      var k := KeyAt(after, c).value;
      OwnsSwap(heap, heap', rid, before, after, c, k, rid);
      assert Owns(heap', c, k, rid);
    }

    /** How a mutation ends that writes a row, its keys and its record: it succeeds when all three are
        possible, and then the log has the record. */
    static ghost predicate Ends(status: Status, stored: bool, admitted: bool, write: bool, r: VersionRecord,
                                before: (seq<VersionRecord>, Bytes), after: (seq<VersionRecord>, Bytes)) {
      && (status.Ok? <==> stored && admitted && (write ==> Loggable(r)))
      && if write && status.Ok? then Logged(before, r, after) else after == before
    }

    /** Every mutation first opens the indexes of its table. */
    method OpenIndexes()
      requires Valid()
      modifies this`indexesOpen
      ensures indexesOpen && Valid() && Heap() == old(Heap()) && Maps() == old(Maps())
    {
      indexesOpen := true;
    }

    /** Appends a record if one is wanted, unless the log does not take it. */
    method Record(write: bool, r: VersionRecord) returns (status: Status)
      modifies versions
      ensures status == if write && !Loggable(r) then InvalidArgument else Ok
      ensures if write && status.Ok? then Logged(old(Journal()), r, Journal()) else Journal() == old(Journal())
    {
      status := Ok;
      if write {
        status := versions.Append(r);
      }
    }

    /** A tuple that the heap can hold, or none. */
    ghost predicate Holdable(rid: nat, t: Tuple) {
      t == [] || storage.rows.entrySize(Row(rid, false, t)) <= storage.rows.Room()
    }

    /** The records of a table with ordinary pages are never too large for the log. */
    lemma AlwaysLoggable(r: VersionRecord)
      requires storage.rows.entrySize == EntrySize && COUNTERS_SIZE <= storage.rows.pageSize
      requires |table| + 2 * storage.rows.pageSize < Span(4)
      requires r.table == table != [] && Holdable(r.rid, r.before) && Holdable(r.rid, r.after)
      ensures Loggable(r)
    {
      TupleBytes(r.rid, r.before);
      TupleBytes(r.rid, r.after);
    }

    lemma TupleBytes(rid: nat, t: Tuple)
      requires storage.rows.entrySize == EntrySize && COUNTERS_SIZE <= storage.rows.pageSize && Holdable(rid, t)
      ensures |EncTuple(t)| + 12 <= storage.rows.pageSize
    {
    }

    // ---------- deletion ----------

    /** Takes a live row out of the indexes and marks it as deleted; then the record is written. */
    method DeleteInternal(rid: nat, now: Int64, write: bool) returns (status: Status)
      requires Valid()
      modifies this, storage.rows, trees, versions
      ensures Valid() && indexesOpen && storage.rows.nextRowId == old(storage.rows.nextRowId)
      ensures Lookup(old(Heap()), rid).None? ==>
                status.NotFound? && Heap() == old(Heap()) && Journal() == old(Journal())
      ensures Lookup(old(Heap()), rid).Some? ==>
                var t := Lookup(old(Heap()), rid).value; var r := VersionRecord(now, table, rid, Deleted, t, []);
                && status == (if write && !Loggable(r) then InvalidArgument else Ok)
                && Heap() == Put(old(Heap()), Row(rid, true, t))
                && if write && status.Ok? then Logged(old(Journal()), r, Journal()) else Journal() == old(Journal())
    {
      OpenIndexes();
      var before := storage.Get(rid);
      if before.None? {
        return NotFound;
      }
      status := DeleteLive(rid, before.value, now, write);
    }

    method DeleteLive(rid: nat, t: Tuple, now: Int64, write: bool) returns (status: Status)
      requires Valid() && Lookup(Heap(), rid) == Some(t)
      modifies storage.rows, trees, versions
      ensures Valid() && Heap() == Put(old(Heap()), Row(rid, true, t))
      ensures storage.rows.nextRowId == old(storage.rows.nextRowId)
      ensures Ends(status, true, true, write, VersionRecord(now, table, rid, Deleted, t, []), old(Journal()), Journal())
      ensures status.Ok? || status.InvalidArgument?
    {
      DropRow(rid, t);
      status := Record(write, VersionRecord(now, table, rid, Deleted, t, []));
    }

    method DropRow(rid: nat, t: Tuple)
      requires Valid() && Lookup(Heap(), rid) == Some(t)
      modifies storage.rows, trees
      ensures Valid() && Heap() == Put(old(Heap()), Row(rid, true, t))
      ensures storage.rows.nextRowId == old(storage.rows.nextRowId)
    {
      ghost var heap, maps := Heap(), Maps();
      LookupHolds(heap, rid, t);
      KeysPresent(heap, maps, rid, t);
      var status := DeleteFromIndexes(trees, columns, t, rid, maps);
      status := storage.Delete(rid);
      PutSwaps(heap, Row(rid, false, t), Row(rid, true, t));
      StillInStep(heap, maps, Heap(), rid, Some(t), None);
    }

    // ---------- insertion ----------

    /** Stores a row, then its keys, then the record.  When an index refuses a key, the row is already
        stored: the table is valid afterwards exactly when the row could not be stored or all its keys
        were free. */
    method InsertInternal(input: Tuple, now: Int64, write: bool) returns (status: Status, rid: nat, ghost k: nat)
      requires Valid()
      modifies this, storage.rows, trees, versions
      ensures indexesOpen
      ensures var next, t := old(storage.rows.nextRowId), Filled(storage.schema, input);
              var r := VersionRecord(now, table, next, Inserted, [], t);
              var stored := storage.Storable(input, next);
              var admitted := AllAdmit(trees, columns, old(Maps()), None, Some(t));
              && Ends(status, stored, admitted, write, r, old(Journal()), Journal())
              && (Valid() <==> !stored || admitted)
              && (!stored ==> Heap() == old(Heap()) && storage.rows.nextRowId == next)
              && (stored ==>
                    && rid == next && storage.rows.nextRowId == rid + 1
                    && k <= |old(Heap())| && Heap() == InsertAt(old(Heap()), k, Row(rid, false, t)))
    {
      OpenIndexes();
      var tuple;
      status, rid, tuple, k := AddRow(input);
      if status.Ok? {
        status := Record(write, VersionRecord(now, table, rid, Inserted, [], tuple));
      }
    }

    method AddRow(input: Tuple) returns (status: Status, rid: nat, tuple: Tuple, ghost k: nat)
      requires Valid()
      modifies storage.rows, trees
      ensures var next, t := old(storage.rows.nextRowId), Filled(storage.schema, input);
              var stored := storage.Storable(input, next);
              var admitted := AllAdmit(trees, columns, old(Maps()), None, Some(t));
              && (status.Ok? <==> stored && admitted)
              && (Valid() <==> !stored || admitted)
              && (status.Ok? ==> tuple == t)
              && (!stored ==> Heap() == old(Heap()) && storage.rows.nextRowId == next)
              && (stored ==>
                    && rid == next && storage.rows.nextRowId == rid + 1
                    && k <= |old(Heap())| && Heap() == InsertAt(old(Heap()), k, Row(rid, false, t)))
    {
      tuple := [];
      ghost var heap, maps := Heap(), Maps();
      status, rid, k := storage.Insert(input);
      if !status.Ok? {
        return;
      }
      ghost var t := Filled(storage.schema, input);
      InsertedLookup(heap, k, rid, t);
      status, tuple := IndexNewRow(rid, heap, maps, t);
    }

    /** The second half of inserting or restoring a row: its keys. */
    method IndexNewRow(rid: nat, ghost heap: seq<Row>, ghost maps: seq<map<Value, nat>>, ghost t: Tuple)
      returns (status: Status, tuple: Tuple)
      requires table != [] && storage.Valid() && storage.schema != [] && Lined(trees, columns, |storage.schema|)
      requires InStep(heap, maps) && AllTodo(trees, 0, maps) && |t| == |storage.schema|
      requires Lookup(Heap(), rid) == Some(t) && LiveSwap(heap, Heap(), rid, None, Some(t))
      modifies trees
      ensures tuple == t && (status.Ok? <==> AllAdmit(trees, columns, maps, None, Some(t))) && (Valid() <==> status.Ok?)
    {
      var row := storage.Get(rid);
      tuple := row.value;
      status := InsertIntoIndexes(trees, columns, tuple, rid, maps);
      if status.Ok? {
        StillInStep(heap, maps, Heap(), rid, None, Some(t));
      } else {
        OutOfStep(heap, maps, Heap(), rid, None, Some(t));
      }
    }

    static lemma InsertedLookup(heap: seq<Row>, k: nat, rid: nat, t: Tuple)
      requires k <= |heap| && DistinctIds(heap) && IdsBelow(heap, rid)
      ensures Lookup(InsertAt(heap, k, Row(rid, false, t)), rid) == Some(t)
      ensures LiveSwap(heap, InsertAt(heap, k, Row(rid, false, t)), rid, None, Some(t))
    {
      var row := Row(rid, false, t);
      InsertSwaps(heap, k, rid, t);
      InsertedIds(heap, k, row);
      InsertedHolds(heap, k, row);
      LookupHolds(InsertAt(heap, k, row), rid, t);
    }

    // ---------- update ----------

    /** Changes a live row, then its keys, then the record.  As with insertion, the row is already changed
        when an index refuses the new key. */
    method UpdateInternal(rid: nat, input: Tuple, now: Int64, write: bool) returns (status: Status)
      requires Valid()
      modifies this, storage.rows, trees, versions
      ensures indexesOpen && storage.rows.nextRowId == old(storage.rows.nextRowId)
      ensures Lookup(old(Heap()), rid).None? ==>
                status.NotFound? && Valid() && Heap() == old(Heap()) && Journal() == old(Journal())
      ensures Lookup(old(Heap()), rid).Some? ==>
                var t, was := Filled(storage.schema, input), Lookup(old(Heap()), rid).value;
                var r := VersionRecord(now, table, rid, Updated, was, t);
                var stored := storage.Storable(input, rid);
                var admitted := AllAdmit(trees, columns, old(Maps()), Some(was), Some(t));
                && Ends(status, stored, admitted, write, r, old(Journal()), Journal())
                && (Valid() <==> !stored || admitted)
                && Heap() == if stored then Put(old(Heap()), Row(rid, false, t)) else old(Heap())
    {
      OpenIndexes();
      var before := storage.Get(rid);
      if before.None? {
        return NotFound;
      }
      status := UpdateLive(rid, before.value, input, now, write);
    }

    method UpdateLive(rid: nat, before: Tuple, input: Tuple, now: Int64, write: bool) returns (status: Status)
      requires Valid() && Lookup(Heap(), rid) == Some(before)
      modifies storage.rows, trees, versions
      ensures storage.rows.nextRowId == old(storage.rows.nextRowId)
      ensures var t, stored := Filled(storage.schema, input), storage.Storable(input, rid);
              var r := VersionRecord(now, table, rid, Updated, before, t);
              var admitted := AllAdmit(trees, columns, old(Maps()), Some(before), Some(t));
              && Ends(status, stored, admitted, write, r, old(Journal()), Journal())
              && (Valid() <==> !stored || admitted)
              && Heap() == if stored then Put(old(Heap()), Row(rid, false, t)) else old(Heap())
    {
      var after;
      status, after := ChangeRow(rid, before, input);
      if status.Ok? {
        status := Record(write, VersionRecord(now, table, rid, Updated, before, after));
      }
    }

    method ChangeRow(rid: nat, before: Tuple, input: Tuple) returns (status: Status, after: Tuple)
      requires Valid() && Lookup(Heap(), rid) == Some(before)
      modifies storage.rows, trees
      ensures storage.rows.nextRowId == old(storage.rows.nextRowId)
      ensures var t, stored := Filled(storage.schema, input), storage.Storable(input, rid);
              var admitted := AllAdmit(trees, columns, old(Maps()), Some(before), Some(t));
              && (status.Ok? <==> stored && admitted)
              && (Valid() <==> !stored || admitted)
              && (status.Ok? ==> after == t)
              && Heap() == if stored then Put(old(Heap()), Row(rid, false, t)) else old(Heap())
    {
      after := [];
      ghost var heap, maps := Heap(), Maps();
      LookupHolds(heap, rid, before);
      status := storage.Update(rid, input);
      if !status.Ok? {
        return;
      }
      status, after := IndexChangedRow(rid, before, heap, maps, Filled(storage.schema, input));
    }

    /** The second half of updating a row: its keys. */
    method IndexChangedRow(rid: nat, before: Tuple, ghost heap: seq<Row>, ghost maps: seq<map<Value, nat>>,
                           ghost t: Tuple)
      returns (status: Status, after: Tuple)
      requires table != [] && storage.Valid() && storage.schema != [] && Lined(trees, columns, |storage.schema|)
      requires InStep(heap, maps) && AllTodo(trees, 0, maps) && |before| == |storage.schema|
      requires DistinctIds(heap) && Row(rid, false, before) in heap && Heap() == Put(heap, Row(rid, false, t))
      modifies trees
      ensures after == t && (status.Ok? <==> AllAdmit(trees, columns, maps, Some(before), Some(t)))
      ensures Valid() <==> status.Ok?
    {
      ChangedLookup(heap, before, rid, t);
      var row := storage.Get(rid);
      after := row.value;
      KeysPresent(heap, maps, rid, before);
      status := UpdateIndexes(trees, columns, before, after, rid, maps);
      if status.Ok? {
        StillInStep(heap, maps, Heap(), rid, Some(before), Some(t));
      } else {
        OutOfStep(heap, maps, Heap(), rid, Some(before), Some(t));
      }
    }

    static lemma ChangedLookup(heap: seq<Row>, was: Tuple, rid: nat, t: Tuple)
      requires DistinctIds(heap) && Row(rid, false, was) in heap
      ensures Lookup(Put(heap, Row(rid, false, t)), rid) == Some(t)
      ensures LiveSwap(heap, Put(heap, Row(rid, false, t)), rid, Some(was), Some(t))
    {
      PutHolds(heap, Row(rid, false, was), Row(rid, false, t));
      PutSwaps(heap, Row(rid, false, was), Row(rid, false, t));
      LookupHolds(Put(heap, Row(rid, false, t)), rid, t);
    }

    // ---------- bringing a row back ----------

    /** Brings back a row that is not live.  The table is valid afterwards exactly when the row was live,
        its tuple was refused, or it was stored and all its keys were free. */
    method RestoreInternal(rid: nat, input: Tuple, now: Int64, write: bool) returns (status: Status)
      requires Valid()
      modifies this, storage.rows, trees, versions
      ensures indexesOpen
      ensures Lookup(old(Heap()), rid).Some? ==>
                status.AlreadyExists? && Valid() && Heap() == old(Heap()) && Journal() == old(Journal())
      ensures Lookup(old(Heap()), rid).None? ==>
                var t := Filled(storage.schema, input);
                var r := VersionRecord(now, table, rid, Inserted, [], t);
                var stored := storage.Storable(input, rid);
                var admitted := AllAdmit(trees, columns, old(Maps()), None, Some(t));
                && Ends(status, stored, admitted, write, r, old(Journal()), Journal())
                && (Valid() <==> !Accepted(storage.schema, input) || (stored && admitted))
                && Heap() == (if stored then Restored(old(Heap()), Row(rid, false, t)) else old(Heap()))
                && (stored ==> storage.rows.nextRowId == Max(old(storage.rows.nextRowId), rid + 1))
    {
      OpenIndexes();
      var existing := storage.Get(rid);
      if existing.Some? {
        return AlreadyExists;
      }
      status := RestoreDeleted(rid, input, now, write);
    }

    method RestoreDeleted(rid: nat, input: Tuple, now: Int64, write: bool) returns (status: Status)
      requires Valid() && Lookup(Heap(), rid).None?
      modifies storage.rows, trees, versions
      ensures var t, stored := Filled(storage.schema, input), storage.Storable(input, rid);
              var r := VersionRecord(now, table, rid, Inserted, [], t);
              var admitted := AllAdmit(trees, columns, old(Maps()), None, Some(t));
              && Ends(status, stored, admitted, write, r, old(Journal()), Journal())
              && (Valid() <==> !Accepted(storage.schema, input) || (stored && admitted))
              && Heap() == (if stored then Restored(old(Heap()), Row(rid, false, t)) else old(Heap()))
              && (stored ==> storage.rows.nextRowId == Max(old(storage.rows.nextRowId), rid + 1))
    {
      var tuple;
      status, tuple := BringBack(rid, input);
      if status.Ok? {
        status := Record(write, VersionRecord(now, table, rid, Inserted, [], tuple));
      }
    }

    method BringBack(rid: nat, input: Tuple) returns (status: Status, tuple: Tuple)
      requires Valid() && Lookup(Heap(), rid).None?
      modifies storage.rows, trees
      ensures var t, stored := Filled(storage.schema, input), storage.Storable(input, rid);
              var admitted := AllAdmit(trees, columns, old(Maps()), None, Some(t));
              && (status.Ok? <==> stored && admitted)
              && (Valid() <==> !Accepted(storage.schema, input) || (stored && admitted))
              && (status.Ok? ==> tuple == t)
              && Heap() == (if stored then Restored(old(Heap()), Row(rid, false, t)) else old(Heap()))
              && (stored ==> storage.rows.nextRowId == Max(old(storage.rows.nextRowId), rid + 1))
    {
      tuple := [];
      ghost var heap, maps := Heap(), Maps();
      status := storage.Restore(rid, input);
      if !status.Ok? {
        return;
      }
      ghost var t := Filled(storage.schema, input);
      RestoredLookup(heap, rid, t);
      status, tuple := IndexNewRow(rid, heap, maps, t);
    }

    static lemma RestoredLookup(heap: seq<Row>, rid: nat, t: Tuple)
      requires DistinctIds(heap) && Lookup(heap, rid).None?
      ensures Lookup(Restored(heap, Row(rid, false, t)), rid) == Some(t)
      ensures LiveSwap(heap, Restored(heap, Row(rid, false, t)), rid, None, Some(t))
    {
      var row := Row(rid, false, t);
      RestoredSwaps(heap, row);
      if IndexOf(heap, rid) < |heap| {
        PutAt(heap, IndexOf(heap, rid), row);
        PutHolds(heap, heap[IndexOf(heap, rid)], row);
      } else {
        assert forall i :: 0 <= i < |heap| ==> heap[i].rid != rid;
        assert (heap + [row])[|heap|] == row;
      }
      LookupHolds(Restored(heap, row), rid, t);
    }
  }
}
