/** A table's rows behind its schema. */
module TableStorages {
  import opened Common
  import opened Sequences
  import opened RecordCodecs
  import opened Packing
  import opened RowStores
  import opened TableState

  class TableStorage {
    const schema: seq<Column>
    const rows: RowStore

    constructor (schema: seq<Column>, rows: RowStore)
      requires rows.Valid() && |schema| <= MAX_VALUES
      requires forall i :: 0 <= i < |rows.Heap()| ==> Conforms(schema, rows.Heap()[i].tuple)
      ensures Valid() && this.schema == schema && this.rows == rows
    {
      this.schema, this.rows := schema, rows;
    }

    ghost function Heap(): seq<Row>
      reads rows
    {
      rows.Heap()
    }

    ghost predicate AllConform(heap: seq<Row>) {
      forall i :: 0 <= i < |heap| ==> Conforms(schema, heap[i].tuple)
    }

    ghost predicate Valid()
      reads rows
    {
      rows.Valid() && AllConform(Heap()) && |schema| <= MAX_VALUES
    }

    /** Rows that conform are not too long to be read back. */
    lemma CanBeRead()
      requires Valid()
      ensures rows.Readable()
    {
      forall i, j | 0 <= i < |rows.pages| && 0 <= j < |rows.pages[i]|
        ensures |rows.pages[i][j].tuple| <= MAX_VALUES
      {
        InFlat(rows.pages, i, j);
      }
    }

    /** The input can be completed to a tuple that the schema accepts and a page holds. */
    ghost predicate Storable(input: Tuple, rid: nat) {
      && Accepted(schema, input)
      && rows.entrySize(Row(rid, false, Filled(schema, input))) <= rows.Room()
    }

    method Get(rid: nat) returns (r: Option<Tuple>)
      requires Valid()
      ensures r == Lookup(Heap(), rid)
    {
      CanBeRead();
      var status, row := rows.Get(rid);
      r := if row.Some? then Some(row.value.tuple) else None;
    }

    method Scan() returns (out: seq<Row>)
      requires Valid()
      ensures out == Live(Heap())
    {
      CanBeRead();
      var status;
      status, out := rows.Scan();
    }

    method Insert(input: Tuple) returns (status: Status, rid: nat, ghost k: nat)
      requires Valid()
      modifies rows
      ensures Valid()
      ensures status.Ok? <==> Storable(input, old(rows.nextRowId))
      ensures !status.Ok? ==> Heap() == old(Heap()) && rows.nextRowId == old(rows.nextRowId)
      ensures status.Ok? ==> rid == old(rows.nextRowId) && rows.nextRowId == rid + 1 && k <= |old(Heap())|
      ensures status.Ok? ==> Heap() == InsertAt(old(Heap()), k, Row(rid, false, Filled(schema, input)))
    {
      rid, k := 0, 0;
      var prepared;
      status, prepared := PrepareTupleForWrite(schema, input);
      if !status.Ok? {
        return;
      }
      CanBeRead();
      status, rid, k := rows.Insert(prepared);
      if status.Ok? {
        InsertedHolds(old(Heap()), k, Row(rid, false, prepared));
      }
    }

    method Update(rid: nat, input: Tuple) returns (status: Status)
      requires Valid()
      modifies rows
      ensures Valid() && rows.nextRowId == old(rows.nextRowId)
      ensures status.Ok? <==> Storable(input, rid) && Lookup(old(Heap()), rid).Some?
      ensures Heap() == if status.Ok? then Put(old(Heap()), Row(rid, false, Filled(schema, input))) else old(Heap())
    {
      var prepared;
      status, prepared := PrepareTupleForWrite(schema, input);
      if !status.Ok? {
        return;
      }
      ghost var h, i := Heap(), IndexOf(Heap(), rid);
      CanBeRead();
      status := rows.Update(rid, prepared);
      if i < |h| && !h[i].deleted {
        assert h[i].(tuple := prepared) == Row(rid, false, prepared);
        PutAt(h, i, Row(rid, false, prepared));
      }
    }

    method Delete(rid: nat) returns (status: Status)
      requires Valid()
      modifies rows
      ensures Valid() && rows.nextRowId == old(rows.nextRowId)
      ensures status == if IndexOf(old(Heap()), rid) < |old(Heap())| then Ok else NotFound
      ensures Lookup(old(Heap()), rid).Some? ==>
                Heap() == Put(old(Heap()), Row(rid, true, Lookup(old(Heap()), rid).value))
      ensures Lookup(old(Heap()), rid).None? ==> Heap() == old(Heap())
    {
      ghost var h, i := Heap(), IndexOf(Heap(), rid);
      CanBeRead();
      status := rows.Delete(rid);
      if i < |h| {
        assert h[i].(deleted := true) == Row(rid, true, h[i].tuple);
        PutAt(h, i, Row(rid, true, h[i].tuple));
      }
    }

    method Restore(rid: nat, input: Tuple) returns (status: Status)
      requires Valid()
      modifies rows
      ensures status.Ok? <==> Storable(input, rid)
      ensures Valid() <==> status.Ok? || !Accepted(schema, input) || old(rows.IsLive(rid))
      ensures status.Ok? ==> rows.nextRowId == Max(old(rows.nextRowId), rid + 1)
      ensures status.Ok? ==> Heap() == Restored(old(Heap()), Row(rid, false, Filled(schema, input)))
      ensures !status.Ok? ==> Heap() == old(Heap())
    {
      var prepared;
      status, prepared := PrepareTupleForWrite(schema, input);
      if !status.Ok? {
        return;
      }
      CanBeRead();
      status := rows.Restore(Row(rid, false, prepared));
    }
  }
}
