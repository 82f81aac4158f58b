/** When the index lookup answers like the full scan. */
module IndexLookup {
  import opened Common
  import opened Sequences
  import opened Values
  import opened RecordCodecs
  import opened RowStores
  import opened TableState
  import opened IndexSet
  import opened Engine
  import opened Query

  /** The query is about this table, and names its indexed columns. */
  ghost predicate About(e: TableEngine, q: Select, indexed: seq<string>) {
    && |q.names| == |e.storage.schema|
    && |indexed| == |e.trees|
    && |e.columns| == |e.trees|
    && (q.columns.Some? ==> forall i :: 0 <= i < |q.columns.value| ==> q.columns.value[i] < |q.names|)
    && (forall i :: 0 <= i < |indexed| ==> indexed[i] in q.names)
    && (forall i :: 0 <= i < |indexed| ==> FindColumn(q.names, indexed[i]) == Some(e.columns[i]))
  }

  lemma {:induction false} NoMatches(q: Select, rows: seq<Row>)
    requires AllFit(q, rows) && forall i :: 0 <= i < |rows| ==> !q.Matches(rows[i].tuple)
    ensures Matching(q, rows) == []
  {
    if rows != [] { NoMatches(q, rows[..|rows| - 1]); }
  }

  /** Rows that do not match may be left out. */
  lemma {:induction false} OnlyOneId(q: Select, rows: seq<Row>, rid: nat)
    requires AllFit(q, rows) && AllFit(q, WithId(rows, rid))
    requires forall i :: 0 <= i < |rows| && q.Matches(rows[i].tuple) ==> rows[i].rid == rid
    ensures Matching(q, WithId(rows, rid)) == Matching(q, rows)
  {
    if rows != [] {
      var n := |rows| - 1;
      var front, row := rows[..n], rows[n];
      PrefixFits(q, rows, rid, n);
      OnlyOneId(q, front, rid);
      var found := WithId(front, rid);
      assert rows[..n + 1] == rows == front + [row];
      WithIdStep(rows, rid, n);
      MatchingStep(q, front, row);
      if row.rid == rid {
        MatchingStep(q, found, row);
      } else {
        assert !q.Matches(rows[n].tuple);
      }
    }
  }

  lemma LiveRows(rows: seq<Row>, i: nat)
    requires i < |Live(rows)|
    ensures Live(rows)[i] in rows && !Live(rows)[i].deleted
  {
    LiveHolds(rows, Live(rows)[i]);
  }

  /** Rows that match have the planner's value in the indexed column. */
  lemma MatchesHaveKey(e: TableEngine, q: Select, indexed: seq<string>, t: Tuple)
    requires About(e, q, indexed) && FindIndexedEquality(q.condition, indexed).Some? && q.Fits(t) && q.Matches(t)
    ensures var (i, v) := FindIndexedEquality(q.condition, indexed).value;
            i < |e.columns| && e.columns[i] < |t| && t[e.columns[i]] == v && !v.Null?
  {
    ChosenHolds(q.like, q.names, q.condition, indexed, t);
    var i := FindIndexedEquality(q.condition, indexed).value.0;
    assert FindColumn(q.names, indexed[i]) == Some(e.columns[i]);
  }

  /** The row that the index gives for a key is the only live one with that key. */
  lemma KeyRow(heap: seq<Row>, c: nat, m: map<Value, nat>, k: Value, j: nat)
    requires Agrees(heap, c, m) && !k.Null? && j < |Live(heap)|
    ensures c < |Live(heap)[j].tuple| && Live(heap)[j].tuple[c] == k ==> k in m && m[k] == Live(heap)[j].rid
    ensures k in m && m[k] == Live(heap)[j].rid && DistinctIds(heap) ==>
              c < |Live(heap)[j].tuple| && Live(heap)[j].tuple[c] == k
  {
    var row := Live(heap)[j];
    LiveRows(heap, j);
    assert row == Row(row.rid, false, row.tuple);
    if c < |row.tuple| && row.tuple[c] == k {
      assert Owns(heap, c, k, row.rid);
    }
    if k in m && m[k] == row.rid && DistinctIds(heap) {
      assert Owns(heap, c, k, row.rid);
      var t: Tuple :| Row(row.rid, false, t) in heap && c < |t| && t[c] == k;
      LookupHolds(heap, row.rid, t);
      LookupHolds(heap, row.rid, row.tuple);
    }
  }

  /** With key k looked up where matching rows have value v: what the lookup shows. */
  lemma LookupShows(e: TableEngine, q: Select, indexed: seq<string>, heap: seq<Row>, m: map<Value, nat>, k: Value)
    requires About(e, q, indexed) && FindIndexedEquality(q.condition, indexed).Some?
    requires AllFit(q, Live(heap)) && DistinctIds(heap) && !k.Null?
    requires var i := FindIndexedEquality(q.condition, indexed).value.0;
             i < |e.columns| && Agrees(heap, e.columns[i], m)
    ensures var (i, v) := FindIndexedEquality(q.condition, indexed).value;
            && (k in m ==> AllFit(q, WithId(Live(heap), m[k])))
            && (k == v && k in m ==> Matching(q, WithId(Live(heap), m[k])) == Matching(q, Live(heap)))
            && (k == v && k !in m ==> Matching(q, Live(heap)) == [])
            && (k != v && k in m ==> Matching(q, WithId(Live(heap), m[k])) == [])
  {
    var (i, v) := FindIndexedEquality(q.condition, indexed).value;
    var c, live := e.columns[i], Live(heap);
    forall j | 0 <= j < |live|
      ensures q.Matches(live[j].tuple) ==> c < |live[j].tuple| && live[j].tuple[c] == v
      ensures c < |live[j].tuple| && live[j].tuple[c] == k ==> k in m && m[k] == live[j].rid
      ensures k in m && m[k] == live[j].rid ==> c < |live[j].tuple| && live[j].tuple[c] == k
    {
      if q.Matches(live[j].tuple) { MatchesHaveKey(e, q, indexed, live[j].tuple); }
      KeyRow(heap, c, m, k, j);
    }
    if k in m {
      var found := WithId(live, m[k]);
      PrefixFits(q, live, m[k], |live|);
      assert live[..|live|] == live;
      if k == v {
        OnlyOneId(q, live, m[k]);
      } else {
        forall j | 0 <= j < |found|
          ensures !q.Matches(found[j].tuple)
        {
          WithIdHolds(live, m[k], found[j]);
          var n :| 0 <= n < |live| && live[n] == found[j];
        }
        NoMatches(q, found);
      }
    } else if k == v {
      NoMatches(q, live);
    }
  }

  lemma NoFaultsInPart(q: Select, rows: seq<Row>, rid: nat)
    requires NoFaults(q, rows)
    ensures NoFaults(q, WithId(rows, rid))
  {
    var found := WithId(rows, rid);
    forall i | 0 <= i < |found|
      ensures q.Test(found[i].tuple).Val?
    {
      WithIdHolds(rows, rid, found[i]);
      var n :| 0 <= n < |rows| && rows[n] == found[i];
    }
  }

  lemma LiveFits(e: TableEngine, q: Select, indexed: seq<string>)
    requires e.Valid() && About(e, q, indexed)
    ensures AllFit(q, Live(e.Heap()))
  {
    forall i | 0 <= i < |Live(e.Heap())|
      ensures q.Fits(Live(e.Heap())[i].tuple)
    {
      LiveRows(e.Heap(), i);
    }
  }

  /** The answer for the row that the index named. */
  ghost function LookedUp(q: Select, live: seq<Row>, valid: bool, rid: Option<nat>): Answer
    requires AllFit(q, live)
  {
    if !valid then Failed
    else if rid.None? then Rows([])
    else
      WholeFits(q, live, rid.value);
      var found := WithId(live, rid.value);
      if NoFaults(q, found) then Rows(Matching(q, found)) else Failed
  }

  lemma WholeFits(q: Select, rows: seq<Row>, rid: nat)
    requires AllFit(q, rows)
    ensures AllFit(q, WithId(rows, rid))
  {
    PrefixFits(q, rows, rid, |rows|);
    assert rows[..|rows|] == rows;
  }

  /** The lookup can be made: this process has opened the index, and the key is valid for it. */
  ghost predicate Ready(e: TableEngine, i: nat, k: Value)
    requires i < |e.trees|
    reads e
  {
    e.indexesOpen && e.trees[i].ValidKey(k)
  }

  /** When the predicate can be evaluated on all live rows, the lookup answers like the full scan
      exactly when it can be made, and the key that it extracts is the one that the planner meant or
      nothing matches at all. */
  lemma SameAnswer(e: TableEngine, q: Select, indexed: seq<string>, k: Value)
    requires e.Valid() && About(e, q, indexed) && FindIndexedEquality(q.condition, indexed).Some?
    requires AllFit(q, Live(e.Heap())) && NoFaults(q, Live(e.Heap()))
    ensures var (i, v) := FindIndexedEquality(q.condition, indexed).value;
            && i < |e.trees|
            && var m := e.trees[i].Contents;
               LookedUp(q, Live(e.Heap()), Ready(e, i, k), if k in m then Some(m[k]) else None)
                 == Rows(Matching(q, Live(e.Heap())))
               <==> Ready(e, i, k) && (k == v || Matching(q, Live(e.Heap())) == [])
  {
    var i := FindIndexedEquality(q.condition, indexed).value.0;
    ChosenHolds(q.like, q.names, q.condition, indexed, seq(|q.names|, _ => Null));
    var heap, m := e.Heap(), e.Maps()[i];
    if Ready(e, i, k) {
      assert Agrees(heap, e.columns[i], m);
      LookupShows(e, q, indexed, heap, m, k);
      if k in m { NoFaultsInPart(q, Live(heap), m[k]); }
    }
  }

  method IndexScan(e: TableEngine, q: Select, indexed: seq<string>) returns (a: Answer)
    requires e.Valid() && About(e, q, indexed) && FindIndexedEquality(q.condition, indexed).Some?
    ensures AllFit(q, Live(e.Heap())) && ExtractEqualityKey(q.condition).Some?
    ensures var (i, v) := FindIndexedEquality(q.condition, indexed).value;
            var k := ExtractEqualityKey(q.condition).value;
            && i < |e.trees|
            && a == LookedUp(q, Live(e.Heap()), Ready(e, i, k),
                             if k in e.trees[i].Contents then Some(e.trees[i].Contents[k]) else None)
  {
    var chosen := FindIndexedEquality(q.condition, indexed).value;
    var i := chosen.0;
    LiveFits(e, q, indexed);
    ChosenHolds(q.like, q.names, q.condition, indexed, seq(|q.names|, _ => Null));
    var key := ExtractEqualityKey(q.condition);
    assert Todo(e.trees[i], e.Maps()[i]);
    if !e.indexesOpen {
      return Failed;
    }
    var status, rid := e.trees[i].Find(key.value);
    if !status.Ok? {
      return Failed;
    }
    if rid.None? {
      return Rows([]);
    }
    var rows := e.storage.Scan();
    WholeFits(q, rows, rid.value);
    a := ScanOne(q, rows, rid.value);
  }

  /** The index names a row on which the condition cannot be evaluated. */
  ghost predicate NamesFault(q: Select, live: seq<Row>, m: map<Value, nat>, k: Value) {
    k in m && !NoFaults(q, WithId(live, m[k]))
  }

  /** Both ways to answer a query.  When the full scan gives rows, the lookup gives the same exactly when
      it can be made, and its key is the planner's literal or no row matches; when the first equality of
      the condition is on an indexed column, exactly when it can be made.  When the full scan fails, so
      does the lookup exactly when it cannot be made, or names a row on which the condition fails. */
  method AnswerTwice(e: TableEngine, q: Select, indexed: seq<string>) returns (lookup: Answer, scan: Answer)
    requires e.Valid() && About(e, q, indexed) && FindIndexedEquality(q.condition, indexed).Some?
    ensures ExtractEqualityKey(q.condition).Some? && FirstEquality(q.condition).Some?
    ensures AllFit(q, Live(e.Heap()))
    ensures scan == if NoFaults(q, Live(e.Heap())) then Rows(Matching(q, Live(e.Heap()))) else Failed
    ensures var (i, v) := FindIndexedEquality(q.condition, indexed).value;
            var k := ExtractEqualityKey(q.condition).value;
            && i < |e.trees|
            && (!Ready(e, i, k) ==> lookup.Failed?)
            && (lookup == scan <==>
                if scan.Rows? then Ready(e, i, k) && (k == v || scan.rows == [])
                else !Ready(e, i, k) || NamesFault(q, Live(e.Heap()), e.trees[i].Contents, k))
            && (scan.Rows? && FirstEquality(q.condition).value.0 in indexed ==> (lookup == scan <==> Ready(e, i, k)))
  {
    lookup := IndexScan(e, q, indexed);
    LiveFits(e, q, indexed);
    var rows := e.storage.Scan();
    scan := SeqScan(q, rows);
    FirstIsChosen(q.condition, indexed);
    ghost var i, k := FindIndexedEquality(q.condition, indexed).value.0, ExtractEqualityKey(q.condition).value;
    ghost var m := e.trees[i].Contents;
    assert lookup == LookedUp(q, Live(e.Heap()), Ready(e, i, k), if k in m then Some(m[k]) else None);
    if NoFaults(q, rows) {
      SameAnswer(e, q, indexed, k);
    }
  }

  // ---------- a key of another column ----------

  lemma OnlyRow(q: Select, row: Row)
    requires q.Fits(row.tuple) && q.Test(row.tuple) == Val(Bool(true)) && !row.deleted
    ensures Live([row]) == [row] && AllFit(q, [row]) && NoFaults(q, [row])
    ensures Matching(q, [row]) == [Project(row.tuple, q.columns)]
  {
    assert [row] == [] + [row];
    MatchingStep(q, [], row);
  }

  /** The executor's key is not the planner's: then it misses every row that satisfies the condition, as
      the only row of any table of this kind. */
  method MissesTheRow(e: TableEngine, q: Select, indexed: seq<string>, t: Tuple, now: Int64)
    returns (lookup: Answer, scan: Answer)
    requires e.Valid() && e.Heap() == [] && About(e, q, indexed)
    requires FindIndexedEquality(q.condition, indexed).Some? && ExtractEqualityKey(q.condition).Some?
    requires FindIndexedEquality(q.condition, indexed).value.1 != ExtractEqualityKey(q.condition).value
    requires Conforms(e.storage.schema, t) && e.storage.Storable(t, e.storage.rows.nextRowId)
    requires AllAdmit(e.trees, e.columns, e.Maps(), None, Some(t)) && q.Test(t) == Val(Bool(true))
    modifies e, e.storage.rows, e.trees, e.versions
    ensures e.Valid() && e.Heap() == [Row(old(e.storage.rows.nextRowId), false, t)]
    ensures q.Fits(t) && scan == Rows([Project(t, q.columns)]) && lookup != scan
  {
    StoreOnly(e, t, now);
    OnlyRow(q, e.Heap()[0]);
    lookup, scan := AnswerTwice(e, q, indexed);
  }

  /** The first row of an empty table. */
  method StoreOnly(e: TableEngine, t: Tuple, now: Int64)
    requires e.Valid() && e.Heap() == []
    requires Conforms(e.storage.schema, t) && e.storage.Storable(t, e.storage.rows.nextRowId)
    requires AllAdmit(e.trees, e.columns, e.Maps(), None, Some(t))
    modifies e, e.storage.rows, e.trees, e.versions
    ensures e.Valid() && e.indexesOpen && e.Heap() == [Row(old(e.storage.rows.nextRowId), false, t)]
    ensures e.storage.rows.nextRowId == old(e.storage.rows.nextRowId) + 1
  {
    PreparedAgain(e.storage.schema, t);
    ghost var row := Row(e.storage.rows.nextRowId, false, t);
    var status, rid, k := e.InsertInternal(t, now, true);
    assert InsertAt([], 0, row) == [row];
  }

  // ---------- a new process ----------

  /** A new process has opened no index: before the first mutation every lookup fails, while the full
      scan answers as it did before. */
  method AnswerAfterRestart(e: TableEngine, q: Select, indexed: seq<string>)
    returns (r: TableEngine, lookup: Answer, scan: Answer)
    requires e.Valid() && About(e, q, indexed) && FindIndexedEquality(q.condition, indexed).Some?
    ensures fresh(r) && r.Valid() && lookup.Failed? && AllFit(q, Live(e.Heap()))
    ensures scan == if NoFaults(q, Live(e.Heap())) then Rows(Matching(q, Live(e.Heap()))) else Failed
  {
    r := new TableEngine.Reopen(e);
    lookup, scan := AnswerTwice(r, q, indexed);
  }
}
