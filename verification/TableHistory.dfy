/** The states of a table that its version log records, and what undoing a record does. */
module TableHistory {
  import opened Common
  import opened Sequences
  import opened Values
  import opened RecordCodecs
  import opened RowStores
  import opened TableState

  /** The heap and the id counter after some number of mutations, with what the indexes then held. */
  datatype Version = Version(heap: seq<Row>, next: nat, maps: seq<map<Value, nat>>)

  ghost predicate WellFormed(v: Version) {
    DistinctIds(v.heap) && IdsBelow(v.heap, v.next)
  }

  /** Mutation r leads from version a to version b. */
  ghost predicate Recorded(a: Version, r: VersionRecord, b: Version) {
    match r.op
    case Inserted =>
      && r.rid == a.next && b.next == a.next + 1
      && exists k: nat :: k <= |a.heap| && b.heap == InsertAt(a.heap, k, Row(r.rid, false, r.after))
    case Updated =>
      && b.next == a.next
      && Row(r.rid, false, r.before) in a.heap
      && b.heap == Put(a.heap, Row(r.rid, false, r.after))
    case Deleted =>
      && b.next == a.next
      && Row(r.rid, false, r.before) in a.heap
      && b.heap == Put(a.heap, Row(r.rid, true, r.before))
  }

  /** Heap h is that of version v, with rows added since, which are all deleted. */
  ghost predicate Covers(h: seq<Row>, v: Version) {
    && DistinctIds(h)
    && Older(h, v.next) == v.heap
    && forall i :: 0 <= i < |h| && h[i].rid >= v.next ==> h[i].deleted
  }

  lemma CoversItself(v: Version)
    requires WellFormed(v)
    ensures Covers(v.heap, v)
  {
    OlderAll(v.heap, v.next);
  }

  /** Both show the same live rows in the same order. */
  lemma CoversLive(h: seq<Row>, v: Version)
    requires Covers(h, v)
    ensures Live(h) == Live(v.heap)
  {
    LiveOlder(h, v.next);
  }

  lemma CoversHolds(h: seq<Row>, v: Version, row: Row)
    requires Covers(h, v) && row in v.heap
    ensures row in h
  {
    OlderHolds(h, v.next, row);
  }

  /** The row that a record left behind, and the row that undoing it leaves behind. */
  ghost function Left(r: VersionRecord): Row {
    match r.op
    case Inserted => Row(r.rid, false, r.after)
    case Updated => Row(r.rid, false, r.after)
    case Deleted => Row(r.rid, true, r.before)
  }

  ghost function Undo(r: VersionRecord): Row {
    match r.op
    case Inserted => Row(r.rid, true, r.after)
    case Updated => Row(r.rid, false, r.before)
    case Deleted => Row(r.rid, false, r.before)
  }

  lemma LeftBehind(a: Version, r: VersionRecord, b: Version)
    requires WellFormed(a) && Recorded(a, r, b)
    ensures Left(r) in b.heap
  {
    match r.op
    case Inserted =>
      var k: nat :| k <= |a.heap| && b.heap == InsertAt(a.heap, k, Row(r.rid, false, r.after));
      InsertedHolds(a.heap, k, Row(r.rid, false, r.after));
    case Updated =>
      PutHolds(a.heap, Row(r.rid, false, r.before), Left(r));
    case Deleted =>
      PutHolds(a.heap, Row(r.rid, false, r.before), Left(r));
  }

  /** Undoing an insertion deletes the row, which is then newer than the version before. */
  lemma UndoInsert(h: seq<Row>, a: Version, r: VersionRecord, b: Version)
    requires WellFormed(a) && Recorded(a, r, b) && Covers(h, b) && r.op.Inserted? && Left(r) in h
    ensures Covers(Put(h, Undo(r)), a)
  {
    var row := Left(r);
    var k: nat :| k <= |a.heap| && b.heap == InsertAt(a.heap, k, row);
    OlderPut(h, Undo(r), a.next);
    OlderStill(h, b.next, a.next);
    OlderInserted(a.heap, k, row);
    PutHolds(h, row, Undo(r));
  }

  /** Undoing an update or a deletion puts the old row back in its place. */
  lemma UndoChange(h: seq<Row>, a: Version, r: VersionRecord, b: Version)
    requires WellFormed(a) && Recorded(a, r, b) && Covers(h, b) && !r.op.Inserted? && Left(r) in h
    ensures Covers(Put(h, Undo(r)), a)
  {
    OlderPut(h, Undo(r), a.next);
    PutBack(a.heap, Left(r), Undo(r));
    PutHolds(h, Left(r), Undo(r));
  }

  /** Undoing the last record of a history leads to the version before it. */
  lemma UndoStep(h: seq<Row>, a: Version, r: VersionRecord, b: Version)
    requires WellFormed(a) && Recorded(a, r, b) && Covers(h, b)
    ensures Left(r) in h
    ensures Covers(Put(h, Undo(r)), a)
    ensures Live(Put(h, Undo(r))) == Live(a.heap)
    ensures LiveSwap(h, Put(h, Undo(r)), r.rid, LiveTuple(Left(r)), LiveTuple(Undo(r)))
  {
    LeftBehind(a, r, b);
    CoversHolds(h, b, Left(r));
    if r.op.Inserted? {
      UndoInsert(h, a, r, b);
    } else {
      UndoChange(h, a, r, b);
    }
    CoversLive(Put(h, Undo(r)), a);
    PutSwaps(h, Left(r), Undo(r));
  }

  /** The keys that come back are free, because the indexes of the version before had them. */
  lemma UndoFree(h: seq<Row>, h': seq<Row>, rid: nat, before: Option<Tuple>, after: Option<Tuple>,
                 c: nat, m: map<Value, nat>, a: seq<Row>, ma: map<Value, nat>)
    requires Agrees(h, c, m) && LiveSwap(h, h', rid, before, after)
    requires Live(h') == Live(a) && Agrees(a, c, ma)
    ensures Free(m, KeyAt(before, c), KeyAt(after, c))
    ensures KeyAt(after, c).Some? ==> KeyAt(after, c).value in ma
  {
    if KeyAt(after, c).Some? {
      var k := KeyAt(after, c).value;
      OwnsSwap(h, h', rid, before, after, c, k, rid);
      OwnsOfLive(h', a, c, k, rid);
      if k in m {
        OwnsSwap(h, h', rid, before, after, c, k, m[k]);
        if m[k] != rid { OwnsOfLive(h', a, c, k, m[k]); }
      }
    }
  }

  // ---------- what lies after a point in time ----------

  /** How many records are not younger than a time, when they are in order of time. */
  ghost function Upto(log: seq<VersionRecord>, time: Int64): (c: nat)
    ensures c <= |log|
    ensures forall i :: 0 <= i < c ==> log[i].timestamp <= time
    ensures c < |log| ==> log[c].timestamp > time
  {
    if log == [] || log[0].timestamp > time then 0 else 1 + Upto(log[1..], time)
  }

  ghost predicate InTimeOrder(log: seq<VersionRecord>) {
    forall i, j :: 0 <= i < j < |log| ==> log[i].timestamp <= log[j].timestamp
  }

  /** The records of a table that are younger than a time, in log order. */
  ghost function Younger(records: seq<VersionRecord>, table: Bytes, time: Int64): seq<VersionRecord> {
    if records == [] then []
    else
      var front, r := records[..|records| - 1], records[|records| - 1];
      Younger(front, table, time) + if r.table == table && r.timestamp > time then [r] else []
  }

  method CollectRollbackRecords(table: Bytes, records: seq<VersionRecord>, time: Int64)
    returns (out: seq<VersionRecord>)
    ensures out == Younger(records, table, time)
  {
    out := [];
    for i := 0 to |records|
      invariant out == Younger(records[..i], table, time)
    {
      assert records[..i + 1][..i] == records[..i];
      if records[i].table == table && records[i].timestamp > time {
        out := out + [records[i]];
      }
    }
    assert records[..|records|] == records;
  }

  lemma {:induction false} YoungerFrom(log: seq<VersionRecord>, table: Bytes, time: Int64, c: nat)
    requires c <= |log| && forall i :: 0 <= i < |log| ==> log[i].table == table
    requires forall i :: 0 <= i < |log| ==> (log[i].timestamp > time <==> i >= c)
    ensures Younger(log, table, time) == log[c..]
  {
    if log != [] {
      var n := |log| - 1;
      if c <= n {
        YoungerFrom(log[..n], table, time, c);
        assert log[..n][c..] + [log[n]] == log[c..];
      } else {
        YoungerFrom(log[..n], table, time, n);
        assert log[..n][n..] == [];
      }
    }
  }

  /** In a log of one table that is in order of time, the records to undo are the last ones. */
  lemma {:induction false} YoungerIsSuffix(log: seq<VersionRecord>, table: Bytes, time: Int64)
    requires InTimeOrder(log) && forall i :: 0 <= i < |log| ==> log[i].table == table
    ensures Younger(log, table, time) == log[Upto(log, time)..]
  {
    var c := Upto(log, time);
    forall i | 0 <= i < |log|
      ensures log[i].timestamp > time <==> i >= c
    {
      assert i > c ==> log[c].timestamp <= log[i].timestamp;
    }
    YoungerFrom(log, table, time, c);
  }
}
