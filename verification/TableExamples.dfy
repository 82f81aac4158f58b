/** Tables on which the engine and its queries do not do what one would expect. */
module TableExamples {
  import opened Common
  import opened Values
  import opened RecordCodecs
  import opened VersionLogs
  import opened RowStores
  import opened TableState
  import opened TableStorages
  import opened IndexTree
  import opened BStarTree
  import opened IndexSet
  import opened Engine
  import opened Query
  import opened IndexLookup

  // ---------- a table of two numbers ----------

  function TwoNumbers(): seq<Column> {
    [Column(IntType, false, None), Column(IntType, false, None)]
  }

  function OneTwo(): Tuple {
    [Int(1), Int(2)]
  }

  method NewStorage(schema: seq<Column>, pageSize: nat) returns (storage: TableStorage)
    requires COUNTERS_SIZE <= pageSize && |schema| <= MAX_VALUES
    ensures fresh(storage) && fresh(storage.rows) && storage.Valid() && storage.schema == schema
    ensures storage.rows.entrySize == EntrySize && storage.rows.pageSize == pageSize
    ensures storage.Heap() == [] && storage.rows.nextRowId == 0
  {
    var rows := new RowStore(pageSize);
    storage := new TableStorage(schema, rows);
  }

  /** A new table with one index. */
  method NewTable(storage: TableStorage, c: nat, tree: Index) returns (e: TableEngine)
    requires c < |storage.schema| && storage.Valid() && storage.Heap() == [] && Todo(tree, map[])
    ensures fresh(e) && e.Valid() && e.storage == storage && e.columns == [c] && e.trees == [tree]
    ensures fresh(e.versions) && e.Maps() == [map[]] && e.indexesOpen
  {
    var versions := new VersionLog();
    e := new TableEngine([116], storage, [c], [tree], versions);
  }

  /** A table of two numbers, with an index on the first, that has no row. */
  ghost predicate NoRow(e: TableEngine)
    reads e.storage.rows, e.trees
  {
    && e.Valid() && e.storage.schema == TwoNumbers() && e.columns == [0] && |e.trees| == 1
    && e.trees[0].ValidKey(Int(1)) && e.Maps() == [map[]]
    && e.Heap() == [] && e.storage.rows.nextRowId == 0
    && e.storage.rows.entrySize(Row(0, false, OneTwo())) <= e.storage.rows.Room()
  }

  method NewNumbers(pageSize: nat, d: Degree) returns (e: TableEngine)
    requires COUNTERS_SIZE <= pageSize && 20 + EntrySize(Row(0, false, OneTwo())) <= pageSize
    ensures fresh(e) && fresh(e.storage.rows) && fresh(e.trees) && fresh(e.versions) && NoRow(e)
  {
    var storage := NewStorage(TwoNumbers(), pageSize);
    var tree := new Index(d, IntType, 8);
    e := NewTable(storage, 0, tree);
  }

  lemma OneTwoTaken(e: TableEngine)
    requires NoRow(e)
    ensures Conforms(TwoNumbers(), OneTwo()) && e.storage.Storable(OneTwo(), 0)
    ensures AllAdmit(e.trees, e.columns, e.Maps(), None, Some(OneTwo()))
  {
    assert Filled(TwoNumbers(), OneTwo()) == OneTwo();
    assert KeyAt(Some(OneTwo()), 0) == Some(Int(1)) && Admits(e.trees[0], map[], None, Some(Int(1)));
  }

  /** The same table after the row (1, 2) was inserted. */
  ghost predicate OneRow(e: TableEngine)
    reads e.storage.rows, e.trees
  {
    && e.Valid() && e.storage.schema == TwoNumbers() && e.columns == [0] && |e.trees| == 1
    && e.Heap() == [Row(0, false, OneTwo())] && e.storage.rows.nextRowId == 1
    && Conforms(TwoNumbers(), OneTwo()) && e.storage.Storable(OneTwo(), 1)
    && KeyAt(Some(OneTwo()), 0) == Some(Int(1))
  }

  method InsertOneTwo(e: TableEngine)
    requires NoRow(e)
    modifies e, e.storage.rows, e.trees, e.versions
    ensures OneRow(e) && e.indexesOpen
  {
    OneTwoTaken(e);
    ghost var size := e.storage.rows.entrySize;
    assert SizedByTuple(size) && size(Row(1, false, OneTwo())) == size(Row(0, false, OneTwo()));
    StoreOnly(e, OneTwo(), 0);
  }

  // ---------- a key of another column ----------

  /** a = 1 */
  function FirstCondition(): Expr {
    Binary(Eq, ColumnRef("a"), Literal(Int(1)))
  }

  /** b = 2 AND a = 1 */
  function WrongCondition(): Expr {
    And(Binary(Eq, ColumnRef("b"), Literal(Int(2))), FirstCondition())
  }

  function Ask(like: Matcher, condition: Expr): Select {
    Select(like, ["a", "b"], condition, None)
  }

  lemma Columns()
    ensures FindColumn(["a", "b"], "a") == Some(0) && FindColumn(["a", "b"], "b") == Some(1)
    ensures FindColumn(["a"], "a") == Some(0) && FindColumn(["a"], "b") == None
  {
    assert ["a", "b"][1..] == ["b"];
    assert FindColumn(["b"], "b") == Some(0);
  }

  lemma Choices()
    ensures FindIndexedEquality(WrongCondition(), ["a"]) == Some((0, Int(1)))
    ensures ExtractEqualityKey(WrongCondition()) == Some(Int(2))
    ensures FindIndexedEquality(FirstCondition(), ["a"]) == Some((0, Int(1)))
  {
    Columns();
  }

  lemma BothMatch(like: Matcher)
    ensures Ask(like, FirstCondition()).Test(OneTwo()) == Val(Bool(true))
    ensures Ask(like, WrongCondition()).Test(OneTwo()) == Val(Bool(true))
  {
    Columns();
    assert Evaluate(like, ["a", "b"], WrongCondition().left, OneTwo()) == Val(Bool(true));
    assert Evaluate(like, ["a", "b"], FirstCondition(), OneTwo()) == Val(Bool(true));
  }

  lemma AskAbout(e: TableEngine, like: Matcher, condition: Expr)
    requires e.storage.schema == TwoNumbers() && e.columns == [0] && |e.trees| == 1
    ensures About(e, Ask(like, condition), ["a"])
  {
    Columns();
  }

  method MissOneTwo(e: TableEngine, like: Matcher) returns (lookup: Answer, scan: Answer)
    requires NoRow(e)
    modifies e, e.storage.rows, e.trees, e.versions
    ensures e.Valid() && e.Heap() == [Row(0, false, OneTwo())] && scan == Rows([OneTwo()]) && lookup != scan
  {
    OneTwoTaken(e);
    Choices();
    BothMatch(like);
    AskAbout(e, like, WrongCondition());
    lookup, scan := MissesTheRow(e, Ask(like, WrongCondition()), ["a"], OneTwo(), 0);
  }

  /** The executor may extract the literal of another column: with an index on a, this condition looks
      up 2, and misses the row that the full scan finds. */
  method WrongKey(like: Matcher, pageSize: nat, d: Degree) returns (e: TableEngine, lookup: Answer, scan: Answer)
    requires COUNTERS_SIZE <= pageSize && 20 + EntrySize(Row(0, false, OneTwo())) <= pageSize
    ensures fresh(e) && e.Valid() && e.Heap() == [Row(0, false, OneTwo())]
    ensures scan == Rows([OneTwo()]) && lookup != scan
  {
    e := NewNumbers(pageSize, d);
    lookup, scan := MissOneTwo(e, like);
  }

  // ---------- an index that is not open ----------

  /** A row is inserted and the process restarts: a = 1 fails with the index, and finds the row without. */
  method NotOpen(like: Matcher, pageSize: nat, d: Degree) returns (r: TableEngine, lookup: Answer, scan: Answer)
    requires COUNTERS_SIZE <= pageSize && 20 + EntrySize(Row(0, false, OneTwo())) <= pageSize
    ensures fresh(r) && r.Valid() && lookup.Failed? && scan == Rows([OneTwo()])
  {
    var e := NewNumbers(pageSize, d);
    InsertOneTwo(e);
    r, lookup, scan := RestartAndAsk(e, like);
  }

  method RestartAndAsk(e: TableEngine, like: Matcher) returns (r: TableEngine, lookup: Answer, scan: Answer)
    requires OneRow(e)
    ensures fresh(r) && r.Valid() && lookup.Failed? && scan == Rows([OneTwo()])
  {
    Choices();
    BothMatch(like);
    AskAbout(e, like, FirstCondition());
    OnlyRow(Ask(like, FirstCondition()), Row(0, false, OneTwo()));
    r, lookup, scan := AnswerAfterRestart(e, Ask(like, FirstCondition()), ["a"]);
  }

  // ---------- a key that is taken ----------

  /** The key of a live row is taken. */
  lemma Taken(e: TableEngine, row: Row, t: Tuple)
    requires e.Valid() && row in e.Heap() && !row.deleted && e.columns != []
    requires KeyAt(Some(t), e.columns[0]).Some? && KeyAt(Some(row.tuple), e.columns[0]) == KeyAt(Some(t), e.columns[0])
    ensures !AllAdmit(e.trees, e.columns, e.Maps(), None, Some(t))
  {
    var c := e.columns[0];
    var k := KeyAt(Some(t), c).value;
    assert Agrees(e.Heap(), c, e.Maps()[0]);
    assert row == Row(row.rid, false, row.tuple) && Owns(e.Heap(), c, k, row.rid);
    assert !Admits(e.trees[0], e.Maps()[0], KeyAt(None, c), KeyAt(Some(t), c));
  }

  /** Inserting a row with the key of a live row is refused, but the row stays in the heap, and the table
      is not valid any more. */
  method DuplicateKey(e: TableEngine, row: Row, t: Tuple, now: Int64) returns (status: Status)
    requires e.Valid() && row in e.Heap() && !row.deleted && e.columns != []
    requires Conforms(e.storage.schema, t) && e.storage.Storable(t, e.storage.rows.nextRowId)
    requires KeyAt(Some(t), e.columns[0]).Some? && KeyAt(Some(row.tuple), e.columns[0]) == KeyAt(Some(t), e.columns[0])
    modifies e, e.storage.rows, e.trees, e.versions
    ensures !status.Ok? && !e.Valid() && Row(old(e.storage.rows.nextRowId), false, t) in e.Heap()
  {
    PreparedAgain(e.storage.schema, t);
    Taken(e, row, t);
    ghost var heap, next := e.Heap(), e.storage.rows.nextRowId;
    var rid;
    ghost var k;
    status, rid, k := e.InsertInternal(t, now, true);
    InsertedHolds(heap, k, Row(next, false, t));
  }

  /** The same row twice. */
  method InsertTwice(pageSize: nat, d: Degree) returns (e: TableEngine, status: Status)
    requires COUNTERS_SIZE <= pageSize && 20 + EntrySize(Row(0, false, OneTwo())) <= pageSize
    ensures fresh(e) && !status.Ok? && !e.Valid() && Row(1, false, OneTwo()) in e.Heap()
  {
    e := NewNumbers(pageSize, d);
    InsertOneTwo(e);
    status := DuplicateKey(e, Row(0, false, OneTwo()), OneTwo(), 0);
  }
}
