/** Reverting a table to a point in time, by undoing its version log from the end. */
module Revert {
  import opened Common
  import opened Values
  import opened RecordCodecs
  import opened Packing
  import opened BinaryIo
  import opened VersionLogs
  import opened RowStores
  import opened TableState
  import opened TableHistory
  import opened IndexSet
  import opened Engine

  /** The table as it is. */
  ghost function Now(e: TableEngine): Version
    reads e.storage.rows, e.trees
  {
    Version(e.Heap(), e.storage.rows.nextRowId, e.Maps())
  }

  ghost predicate KeysValid(e: TableEngine, maps: seq<map<Value, nat>>) {
    && |maps| == |e.trees|
    && forall i, k :: 0 <= i < |maps| && k in maps[i] ==> e.trees[i].ValidKey(k)
  }

  /** A version that the table could have had. */
  ghost predicate Good(e: TableEngine, v: Version) {
    && WellFormed(v)
    && e.InStep(v.heap, v.maps)
    && KeysValid(e, v.maps)
    && e.storage.AllConform(v.heap)
    && EachFits(e.storage.rows.entrySize, v.heap, e.storage.rows.Room())
  }

  lemma GoodNow(e: TableEngine)
    requires e.Valid()
    ensures Good(e, Now(e))
  {
    PackedFits(e.storage.rows.entrySize, e.storage.rows.pages, e.storage.rows.Room());
    forall i, k | 0 <= i < |e.trees| && k in e.Maps()[i]
      ensures e.trees[i].ValidKey(k)
    {
      assert Todo(e.trees[i], e.Maps()[i]);
    }
  }

  /** Each record of the log leads from one version to the next. */
  ghost predicate Chronicle(e: TableEngine, log: seq<VersionRecord>, hist: seq<Version>) {
    && |hist| == |log| + 1
    && (forall j :: 0 <= j < |hist| ==> Good(e, hist[j]))
    && (forall j :: 0 <= j < |log| ==> Recorded(hist[j], log[j], hist[j + 1]))
    && (forall j :: 0 <= j < |log| ==> log[j].table == e.table)
  }

  /** The log file tells how the table became what it is. */
  ghost predicate Traced(e: TableEngine, hist: seq<Version>)
    reads e.storage.rows, e.trees, e.versions
  {
    e.versions.Intact() && Chronicle(e, e.Log(), hist) && hist[|e.Log()|] == Now(e)
  }

  lemma TracedFromStart(e: TableEngine)
    requires e.Valid() && e.Log() == [] && e.versions.Intact()
    ensures Traced(e, [Now(e)])
  {
    GoodNow(e);
  }

  lemma Continued(e: TableEngine, log: seq<VersionRecord>, hist: seq<Version>, r: VersionRecord, v: Version)
    requires Chronicle(e, log, hist) && Good(e, v) && Recorded(hist[|log|], r, v) && r.table == e.table
    ensures Chronicle(e, log + [r], hist + [v])
  {
    forall j | 0 <= j < |log + [r]|
      ensures Recorded((hist + [v])[j], (log + [r])[j], (hist + [v])[j + 1])
    {
      if j < |log| { assert Recorded(hist[j], log[j], hist[j + 1]); }
    }
  }

  // ---------- mutations ----------

  datatype Mutation =
    | Insert(input: Tuple)
    | Update(rid: nat, input: Tuple)
    | Delete(rid: nat)

  /** Row ids are below 2^64, as the format of the log needs. */
  ghost predicate IdsFit(e: TableEngine, n: nat)
    reads e.storage.rows
  {
    e.storage.rows.nextRowId + n <= Span(8)
  }

  /** A success leads to the next version, and the log has its record. */
  ghost predicate Took(e: TableEngine, a: Version, before: seq<VersionRecord>, r: VersionRecord, now: Int64)
    reads e.storage.rows, e.trees, e.versions
  {
    && e.Valid() && e.versions.Intact()
    && Recorded(a, r, Now(e)) && r.table == e.table && r.timestamp == now && e.Log() == before + [r]
  }

  /** The log file is still intact after a record of a table with row ids in range. */
  lemma StillIntact(e: TableEngine, before: (seq<VersionRecord>, Bytes), r: VersionRecord)
    requires Holds(before.1, before.0) && TableEngine.Logged(before, r, e.Journal())
    requires Loggable(r) && InLimits(r)
    ensures e.versions.Intact()
  {
    AppendedIntact(before.1, before.0, r);
  }

  method PerformInsert(e: TableEngine, input: Tuple, now: Int64) returns (status: Status, ghost r: VersionRecord)
    requires e.Valid() && e.versions.Intact() && IdsFit(e, 1)
    modifies e, e.storage.rows, e.trees, e.versions
    ensures if status.Ok? then Took(e, old(Now(e)), old(e.Log()), r, now) else e.Log() == old(e.Log())
    ensures e.storage.rows.nextRowId <= old(e.storage.rows.nextRowId) + 1
  {
    var rid;
    ghost var k;
    status, rid, k := e.InsertInternal(input, now, true);
    r := VersionRecord(now, e.table, rid, Inserted, [], Filled(e.storage.schema, input));
    if status.Ok? { StillIntact(e, old(e.Journal()), r); }
  }

  method PerformUpdate(e: TableEngine, rid: nat, input: Tuple, now: Int64)
    returns (status: Status, ghost r: VersionRecord)
    requires e.Valid() && e.versions.Intact() && IdsFit(e, 0)
    modifies e, e.storage.rows, e.trees, e.versions
    ensures if status.Ok? then Took(e, old(Now(e)), old(e.Log()), r, now) else e.Log() == old(e.Log())
    ensures e.storage.rows.nextRowId == old(e.storage.rows.nextRowId)
  {
    ghost var heap, was := e.Heap(), Lookup(e.Heap(), rid);
    LiveIdFits(e, rid);
    status := e.UpdateInternal(rid, input, now, true);
    r := VersionRecord(now, e.table, rid, Updated, if was.Some? then was.value
        else [], Filled(e.storage.schema, input));
    if was.Some? { LookupHolds(heap, rid, was.value); }
    if status.Ok? { StillIntact(e, old(e.Journal()), r); }
  }

  method PerformDelete(e: TableEngine, rid: nat, now: Int64) returns (status: Status, ghost r: VersionRecord)
    requires e.Valid() && e.versions.Intact() && IdsFit(e, 0)
    modifies e, e.storage.rows, e.trees, e.versions
    ensures if status.Ok? then Took(e, old(Now(e)), old(e.Log()), r, now) else e.Log() == old(e.Log())
    ensures e.storage.rows.nextRowId == old(e.storage.rows.nextRowId)
  {
    ghost var heap, was := e.Heap(), Lookup(e.Heap(), rid);
    LiveIdFits(e, rid);
    status := e.DeleteInternal(rid, now, true);
    r := VersionRecord(now, e.table, rid, Deleted, if was.Some? then was.value else [], []);
    if was.Some? { LookupHolds(heap, rid, was.value); }
    if status.Ok? { StillIntact(e, old(e.Journal()), r); }
  }

  /** A mutation that succeeds adds one record, and the log goes on telling how the table came about. */
  method Mutate(e: TableEngine, m: Mutation, now: Int64, ghost hist: seq<Version>)
    returns (status: Status, ghost hist': seq<Version>)
    requires e.Valid() && Traced(e, hist) && IdsFit(e, 1)
    modifies e, e.storage.rows, e.trees, e.versions
    ensures !status.Ok? ==> e.Log() == old(e.Log())
    ensures status.Ok? ==> e.Valid() && Traced(e, hist') && hist' == hist + [Now(e)]
    ensures status.Ok? ==> exists r :: e.Log() == old(e.Log()) + [r] && r.timestamp == now
    ensures e.storage.rows.nextRowId <= old(e.storage.rows.nextRowId) + 1
  {
    hist' := hist;
    ghost var log := e.Log();
    ghost var r;
    match m {
      case Insert(input) => status, r := PerformInsert(e, input, now);
      case Update(rid, input) => status, r := PerformUpdate(e, rid, input, now);
      case Delete(rid) => status, r := PerformDelete(e, rid, now);
    }
    if status.Ok? {
      GoodNow(e);
      Continued(e, log, hist, r, Now(e));
      hist' := hist + [Now(e)];
    }
  }

  lemma LiveIdFits(e: TableEngine, rid: nat)
    requires e.Valid() && IdsFit(e, 0)
    ensures Lookup(e.Heap(), rid).Some? ==> rid < Span(8) && |Lookup(e.Heap(), rid).value| <= MAX_VALUES
    ensures |e.storage.schema| <= MAX_VALUES
  {
  }

  /** No time lies before that of a record or of an earlier mutation. */
  ghost predicate NotEarlier(log: seq<VersionRecord>, times: seq<Int64>) {
    && (forall i, j :: 0 <= i < |log| && 0 <= j < |times| ==> log[i].timestamp <= times[j])
    && (forall i, j :: 0 <= i < j < |times| ==> times[i] <= times[j])
  }

  lemma StillInOrder(log: seq<VersionRecord>, r: VersionRecord, times: seq<Int64>)
    requires InTimeOrder(log) && NotEarlier(log, times) && times != [] && r.timestamp == times[0]
    ensures InTimeOrder(log + [r]) && NotEarlier(log + [r], times[1..])
  {
  }

  /** The next mutation of a run. */
  method MutateNext(e: TableEngine, m: Mutation, times: seq<Int64>, ghost hist: seq<Version>)
    returns (status: Status, ghost hist': seq<Version>)
    requires e.Valid() && Traced(e, hist) && IdsFit(e, 1) && times != []
    requires InTimeOrder(e.Log()) && NotEarlier(e.Log(), times)
    modifies e, e.storage.rows, e.trees, e.versions
    ensures status.Ok? ==> e.Valid() && Traced(e, hist') && InTimeOrder(e.Log()) && NotEarlier(e.Log(), times[1..])
    ensures status.Ok? ==> hist <= hist' && |e.Log()| == |old(e.Log())| + 1 && old(e.Log()) <= e.Log()
    ensures e.storage.rows.nextRowId <= old(e.storage.rows.nextRowId) + 1
  {
    ghost var log := e.Log();
    status, hist' := Mutate(e, m, times[0], hist);
    if status.Ok? {
      ghost var r :| e.Log() == log + [r] && r.timestamp == times[0];
      StillInOrder(log, r, times);
    }
  }

  /** A run of mutations, up to the first that fails: after a run in which all succeed, the table is
      valid, its log is in order of time and tells how every state came about. */
  method MutateAll(e: TableEngine, ms: seq<Mutation>, times: seq<Int64>, ghost hist: seq<Version>)
    returns (status: Status, ghost hist': seq<Version>)
    requires e.Valid() && Traced(e, hist) && IdsFit(e, |ms|) && |ms| == |times|
    requires InTimeOrder(e.Log()) && NotEarlier(e.Log(), times)
    modifies e, e.storage.rows, e.trees, e.versions
    ensures status.Ok? ==> e.Valid() && Traced(e, hist') && InTimeOrder(e.Log())
    ensures status.Ok? ==> hist <= hist' && |e.Log()| == |old(e.Log())| + |ms| && old(e.Log()) <= e.Log()
  {
    hist' := hist;
    for i := 0 to |ms|
      invariant e.Valid() && Traced(e, hist') && IdsFit(e, |ms| - i)
      invariant InTimeOrder(e.Log()) && NotEarlier(e.Log(), times[i..])
      invariant hist <= hist' && |e.Log()| == |old(e.Log())| + i && old(e.Log()) <= e.Log()
    {
      assert times[i..][1..] == times[i + 1..];
      status, hist' := MutateNext(e, ms[i], times[i..], hist');
      if !status.Ok? {
        return;
      }
    }
    status := Ok;
  }

  // ---------- undoing one record ----------

  /** The keys that an undone record brings back are valid and free. */
  lemma UndoAdmitted(e: TableEngine, h: seq<Row>, maps: seq<map<Value, nat>>, h': seq<Row>, rid: nat,
                     before: Option<Tuple>, after: Option<Tuple>, a: Version)
    requires |e.trees| == |e.columns| && e.InStep(h, maps) && KeysValid(e, maps)
    requires LiveSwap(h, h', rid, before, after) && Live(h') == Live(a.heap) && Good(e, a)
    ensures AllAdmit(e.trees, e.columns, maps, before, after)
  {
    forall i | 0 <= i < |e.trees|
      ensures Admits(e.trees[i], maps[i], KeyAt(before, e.columns[i]), KeyAt(after, e.columns[i]))
    {
      var c := e.columns[i];
      assert Agrees(h, c, maps[i]) && Agrees(a.heap, c, a.maps[i]);
      UndoFree(h, h', rid, before, after, c, maps[i], a.heap, a.maps[i]);
      if KeyAt(before, c).Some? {
        OwnsSwap(h, h', rid, before, after, c, KeyAt(before, c).value, rid);
      }
    }
  }

  /** A tuple that a good version holds can be stored again as it is. */
  lemma StorableAgain(e: TableEngine, a: Version, row: Row)
    requires Good(e, a) && row in a.heap && !row.deleted
    ensures e.storage.Storable(row.tuple, row.rid) && Filled(e.storage.schema, row.tuple) == row.tuple
  {
    var i :| 0 <= i < |a.heap| && a.heap[i] == row;
    assert Conforms(e.storage.schema, a.heap[i].tuple);
    PreparedAgain(e.storage.schema, row.tuple);
    assert row == Row(row.rid, false, row.tuple);
  }

  /** Undoing a record always succeeds, writes no record, and leads to the version before it. */
  method ApplyInverseRecord(e: TableEngine, r: VersionRecord, ghost a: Version, ghost b: Version)
    returns (status: Status)
    requires e.Valid() && Good(e, a) && Recorded(a, r, b) && Covers(e.Heap(), b)
    modifies e, e.storage.rows, e.trees, e.versions
    ensures status.Ok? && e.Valid() && e.Log() == old(e.Log())
    ensures Covers(e.Heap(), a)
  {
    ghost var h := e.Heap();
    UndoStep(h, a, r, b);
    assert KeysValid(e, e.Maps()) by { GoodNow(e); }
    UndoAdmitted(e, h, e.Maps(), Put(h, Undo(r)), r.rid, LiveTuple(Left(r)), LiveTuple(Undo(r)), a);
    match r.op {
      case Inserted =>
        LookupHolds(h, r.rid, r.after);
        status := e.DeleteInternal(r.rid, 0, false);
      case Deleted =>
        StorableAgain(e, a, Undo(r));
        DeletedLookup(h, r.rid, r.before);
        PutAt(h, IndexOf(h, r.rid), Undo(r));
        status := e.RestoreInternal(r.rid, r.before, 0, false);
      case Updated =>
        StorableAgain(e, a, Undo(r));
        LookupHolds(h, r.rid, r.after);
        status := e.UpdateInternal(r.rid, r.before, 0, false);
    }
  }

  lemma DeletedLookup(h: seq<Row>, rid: nat, t: Tuple)
    requires DistinctIds(h) && Row(rid, true, t) in h
    ensures Lookup(h, rid).None? && IndexOf(h, rid) < |h|
  {
    var i :| 0 <= i < |h| && h[i] == Row(rid, true, t);
    assert IndexOf(h, rid) == i;
  }

  // ---------- undoing everything after a point in time ----------

  /** The table shows version j of its history. */
  ghost predicate Shows(e: TableEngine, hist: seq<Version>, j: nat)
    reads e.storage.rows, e.trees
  {
    j < |hist| && e.Valid() && Covers(e.Heap(), hist[j])
  }

  method UndoOne(e: TableEngine, records: seq<VersionRecord>, i: nat, ghost c: nat, ghost log: seq<VersionRecord>,
                 ghost hist: seq<Version>)
    returns (status: Status)
    requires Chronicle(e, log, hist) && c <= |log| && records == log[c..] && i < |records| && Shows(e, hist, c + i + 1)
    modifies e, e.storage.rows, e.trees, e.versions
    ensures status.Ok? && Shows(e, hist, c + i) && e.Log() == old(e.Log())
  {
    ghost var j := c + i;
    assert records[i] == log[j];
    assert Recorded(hist[j], log[j], hist[j + 1]) && Good(e, hist[j]);
    status := ApplyInverseRecord(e, records[i], hist[j], hist[j + 1]);
  }

  /** Undoing the records after the first c, the last one first. */
  method UndoAll(e: TableEngine, records: seq<VersionRecord>, ghost c: nat, ghost log: seq<VersionRecord>,
                 ghost hist: seq<Version>)
    returns (status: Status)
    requires Chronicle(e, log, hist) && c <= |log| && records == log[c..] && Shows(e, hist, |log|)
    modifies e, e.storage.rows, e.trees, e.versions
    ensures status.Ok? && Shows(e, hist, c) && e.Log() == old(e.Log())
  {
    var i := |records|;
    while i > 0
      invariant 0 <= i <= |records| && Shows(e, hist, c + i) && e.Log() == old(e.Log())
    {
      i := i - 1;
      status := UndoOne(e, records, i, c, log, hist);
    }
    status := Ok;
  }

  /** After any run of successful mutations with non-decreasing timestamps, reverting to a time reads
      the log file, succeeds, leaves the log as it is, and brings back the live rows, in scan order, and
      every index as they were after the last record that is not younger. */
  method RevertTableToTimestamp(e: TableEngine, time: Int64, ghost hist: seq<Version>) returns (status: Status)
    requires e.Valid() && Traced(e, hist) && InTimeOrder(e.Log())
    modifies e, e.storage.rows, e.trees, e.versions
    ensures status.Ok? && e.Valid() && e.Log() == old(e.Log())
    ensures Live(e.Heap()) == Live(hist[Upto(e.Log(), time)].heap)
    ensures e.Maps() == hist[Upto(e.Log(), time)].maps
  {
    var records;
    status, records := e.versions.ReadAll();
    var rollback := CollectRollbackRecords(e.table, records, time);
    ghost var log, c := e.Log(), Upto(e.Log(), time);
    YoungerIsSuffix(log, e.table, time);
    assert Good(e, hist[|log|]);
    CoversItself(hist[|log|]);
    status := UndoAll(e, rollback, c, log, hist);
    assert Good(e, hist[c]);
    SameIndexes(e, hist[c]);
  }

  lemma SameIndexes(e: TableEngine, v: Version)
    requires e.Valid() && Good(e, v) && Covers(e.Heap(), v)
    ensures Live(e.Heap()) == Live(v.heap) && e.Maps() == v.maps
  {
    CoversLive(e.Heap(), v);
    forall i | 0 <= i < |e.trees|
      ensures e.Maps()[i] == v.maps[i]
    {
      assert Agrees(e.Heap(), e.columns[i], e.Maps()[i]) && Agrees(v.heap, e.columns[i], v.maps[i]);
      IndexOfLive(e.Heap(), e.Maps()[i], v.heap, v.maps[i], e.columns[i]);
    }
  }

  // ---------- after a restart ----------

  /** Two engines over files with the same schema, indexes and pages. */
  ghost predicate Alike(e: TableEngine, r: TableEngine) {
    && r.table == e.table && r.columns == e.columns && r.storage.schema == e.storage.schema
    && r.storage.rows.entrySize == e.storage.rows.entrySize && r.storage.rows.Room() == e.storage.rows.Room()
    && |r.trees| == |e.trees| && forall i :: 0 <= i < |r.trees| ==> TableEngine.Same(r.trees[i], e.trees[i])
  }

  lemma GoodAlike(e: TableEngine, r: TableEngine, v: Version)
    requires Alike(e, r) && Good(e, v)
    ensures Good(r, v)
  {
    forall i, k | 0 <= i < |v.maps| && k in v.maps[i]
      ensures r.trees[i].ValidKey(k)
    {
      assert TableEngine.Same(r.trees[i], e.trees[i]) && e.trees[i].ValidKey(k);
    }
    forall i | 0 <= i < |v.maps|
      ensures Agrees(v.heap, r.columns[i], v.maps[i])
    {
      assert Agrees(v.heap, e.columns[i], v.maps[i]);
    }
    assert forall i :: 0 <= i < |v.heap| ==> Conforms(e.storage.schema, v.heap[i].tuple);
  }

  lemma ChronicleAlike(e: TableEngine, r: TableEngine, log: seq<VersionRecord>, hist: seq<Version>)
    requires Alike(e, r) && Chronicle(e, log, hist)
    ensures Chronicle(r, log, hist)
  {
    forall j | 0 <= j < |hist|
      ensures Good(r, hist[j])
    {
      GoodAlike(e, r, hist[j]);
    }
  }

  /** A new process that finds the files can go back to any time that the log tells of. */
  method RestartAndRevert(e: TableEngine, time: Int64, ghost hist: seq<Version>)
    returns (r: TableEngine, status: Status)
    requires e.Valid() && Traced(e, hist) && InTimeOrder(e.Log())
    ensures fresh(r) && status.Ok? && r.Valid()
    ensures Live(r.Heap()) == Live(hist[Upto(e.Log(), time)].heap)
    ensures r.Maps() == hist[Upto(e.Log(), time)].maps
  {
    r := new TableEngine.Reopen(e);
    ChronicleAlike(e, r, e.Log(), hist);
    status := RevertTableToTimestamp(r, time, hist);
  }
}
