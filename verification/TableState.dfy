/** What the heap and the unique indexes of a table say about each other, and how a mutation changes
    both. */
module TableState {
  import opened Common
  import opened Sequences
  import opened Values
  import opened RecordCodecs
  import opened RowStores

  // ---------- tuples ----------

  datatype Column = Column(ty: ValueType, notNull: bool, default: Option<Value>)

  /** A value that a column takes. */
  predicate Acceptable(column: Column, v: Value) {
    if v.Null? then !column.notNull else TypeOf(v) == column.ty
  }

  /** The value of a column: given, or the default, or NULL. */
  function Cell(column: Column, i: nat, input: Tuple): Value {
    if i < |input| then input[i] else if column.default.Some? then column.default.value else Null
  }

  /** A tuple as it is stored: one acceptable value for each column. */
  ghost predicate Conforms(schema: seq<Column>, t: Tuple) {
    && schema != []
    && |t| == |schema|
    && forall i :: 0 <= i < |schema| ==> Acceptable(schema[i], t[i])
  }

  ghost function Filled(schema: seq<Column>, input: Tuple): (t: Tuple)
    ensures |t| == |schema|
  {
    seq(|schema|, i requires 0 <= i < |schema| => Cell(schema[i], i, input))
  }

  /** The input can be completed to a tuple that the schema takes. */
  ghost predicate Accepted(schema: seq<Column>, input: Tuple) {
    |input| <= |schema| && Conforms(schema, Filled(schema, input))
  }

  /** Fills in what the input leaves out; the result conforms, or some column refuses its value. */
  method PrepareTupleForWrite(schema: seq<Column>, input: Tuple) returns (status: Status, output: Tuple)
    ensures status == if schema == [] then InternalError else if Accepted(schema, input) then Ok else InvalidArgument
    ensures status.Ok? ==> output == Filled(schema, input)
  {
    output := [];
    if schema == [] {
      return InternalError, output;
    }
    if |input| > |schema| {
      return InvalidArgument, output;
    }
    for i := 0 to |schema|
      invariant output == Filled(schema, input)[..i]
      invariant forall j :: 0 <= j < i ==> Acceptable(schema[j], output[j])
    {
      var candidate := Cell(schema[i], i, input);
      assert Filled(schema, input)[i] == candidate;
      if !Acceptable(schema[i], candidate) {
        return InvalidArgument, output;
      }
      output := output + [candidate];
    }
    status := Ok;
  }

  /** The tuples that are prepared as they are, are exactly those that can be stored; and what comes
      out of preparing is one of them. */
  lemma PreparedAgain(schema: seq<Column>, input: Tuple)
    ensures Accepted(schema, input) && Filled(schema, input) == input <==> Conforms(schema, input)
    ensures Accepted(schema, input) ==>
              Accepted(schema, Filled(schema, input)) && Filled(schema, Filled(schema, input)) == Filled(schema, input)
  {
    var t := Filled(schema, input);
    assert |input| == |schema| ==> t == input;
    assert Filled(schema, t) == t;
  }

  // ---------- rows by id ----------

  /** The rows with one of them replaced by a row of the same id. */
  ghost function Put(rows: seq<Row>, row: Row): (r: seq<Row>)
    ensures |r| == |rows|
    ensures forall i :: 0 <= i < |rows| ==> r[i] == if rows[i].rid == row.rid then row else rows[i]
  {
    seq(|rows|, i requires 0 <= i < |rows| => if rows[i].rid == row.rid then row else rows[i])
  }

  lemma PutAt(rows: seq<Row>, i: nat, row: Row)
    requires i < |rows| && rows[i].rid == row.rid && DistinctIds(rows)
    ensures rows[i := row] == Put(rows, row)
  {
  }

  /** Rows added since an id was given out are left out. */
  ghost function Older(rows: seq<Row>, n: nat): seq<Row> {
    if rows == [] then []
    else if rows[0].rid < n then [rows[0]] + Older(rows[1..], n)
    else Older(rows[1..], n)
  }

  lemma {:induction false} OlderConcat(a: seq<Row>, b: seq<Row>, n: nat)
    ensures Older(a + b, n) == Older(a, n) + Older(b, n)
  {
    if a == [] {
      assert a + b == b;
    } else {
      OlderConcat(a[1..], b, n);
      assert (a + b)[0] == a[0] && (a + b)[1..] == a[1..] + b;
      Associative([a[0]], Older(a[1..], n), Older(b, n));
    }
  }

  lemma {:induction false} OlderAll(rows: seq<Row>, n: nat)
    requires IdsBelow(rows, n)
    ensures Older(rows, n) == rows
  {
    if rows != [] { OlderAll(rows[1..], n); }
  }

  lemma OlderPart(rows: seq<Row>, i: nat, j: nat, n: nat)
    requires i <= j <= |rows| && IdsBelow(rows, n)
    ensures Older(rows[i..j], n) == rows[i..j]
  {
    OlderAll(rows[i..j], n);
  }

  lemma OlderInserted(rows: seq<Row>, k: nat, row: Row)
    requires k <= |rows| && IdsBelow(rows, row.rid)
    ensures Older(InsertAt(rows, k, row), row.rid) == rows
  {
    var a, b := rows[0..k], rows[k..|rows|];
    assert InsertAt(rows, k, row) == a + [row] + b;
    OlderConcat(a + [row], b, row.rid);
    OlderConcat(a, [row], row.rid);
    OlderPart(rows, 0, k, row.rid);
    OlderPart(rows, k, |rows|, row.rid);
    assert Older([row], row.rid) == [];
    Halves(rows, k);
  }

  lemma {:induction false} OlderStill(rows: seq<Row>, n: nat, m: nat)
    requires m <= n
    ensures Older(Older(rows, n), m) == Older(rows, m)
  {
    if rows != [] {
      OlderStill(rows[1..], n, m);
      if rows[0].rid < n {
        assert Older(rows, n)[0] == rows[0] && Older(rows, n)[1..] == Older(rows[1..], n);
      }
    }
  }

  lemma PutFirst(first: Row, rest: seq<Row>, row: Row)
    ensures Put([first] + rest, row) == [if first.rid == row.rid then row else first] + Put(rest, row)
  {
  }

  lemma {:induction false} OlderPut(rows: seq<Row>, row: Row, n: nat)
    ensures Older(Put(rows, row), n) == if row.rid < n then Put(Older(rows, n), row) else Older(rows, n)
  {
    if rows != [] {
      OlderPut(rows[1..], row, n);
      assert rows == [rows[0]] + rows[1..];
      PutFirst(rows[0], rows[1..], row);
      OlderConcat([Put(rows, row)[0]], Put(rows[1..], row), n);
      PutFirst(rows[0], Older(rows[1..], n), row);
    }
  }

  lemma {:induction false} LiveOlder(rows: seq<Row>, n: nat)
    requires forall i :: 0 <= i < |rows| && rows[i].rid >= n ==> rows[i].deleted
    ensures Live(Older(rows, n)) == Live(rows)
  {
    if rows != [] {
      LiveOlder(rows[1..], n);
      if rows[0].rid < n {
        assert Older(rows, n)[1..] == Older(rows[1..], n);
      }
    }
  }

  lemma {:induction false} OlderHolds(rows: seq<Row>, n: nat, row: Row)
    ensures row in Older(rows, n) <==> row in rows && row.rid < n
  {
    if rows != [] { OlderHolds(rows[1..], n, row); }
  }

  lemma {:induction false} LiveHolds(rows: seq<Row>, row: Row)
    ensures row in Live(rows) <==> row in rows && !row.deleted
  {
    if rows != [] { LiveHolds(rows[1..], row); }
  }

  /** Putting a row and then putting the old one back. */
  lemma PutBack(rows: seq<Row>, row: Row, was: Row)
    requires DistinctIds(rows) && was in rows && was.rid == row.rid
    ensures Put(Put(rows, row), was) == rows
  {
  }

  // ---------- indexes ----------

  /** Row rid is live and has key k in column c. */
  ghost predicate Owns(rows: seq<Row>, c: nat, k: Value, rid: nat) {
    exists t: Tuple :: Row(rid, false, t) in rows && c < |t| && t[c] == k
  }

  /** The index maps a key to a row id exactly when that row is live and has the non-null key. */
  ghost predicate Agrees(rows: seq<Row>, c: nat, m: map<Value, nat>) {
    && (forall k :: k in m ==> !k.Null? && Owns(rows, c, k, m[k]))
    && (forall k, rid {:trigger Owns(rows, c, k, rid)} :: Owns(rows, c, k, rid) && !k.Null? ==> k in m && m[k] == rid)
  }

  /** Indexed values are unique among the live rows. */
  lemma UniqueKeys(rows: seq<Row>, c: nat, m: map<Value, nat>, a: Row, b: Row)
    requires Agrees(rows, c, m) && a in rows && b in rows && !a.deleted && !b.deleted
    requires c < |a.tuple| && c < |b.tuple| && a.tuple[c] == b.tuple[c] && !a.tuple[c].Null?
    ensures a.rid == b.rid
  {
    assert Row(a.rid, false, a.tuple) in rows && Row(b.rid, false, b.tuple) in rows;
    assert Owns(rows, c, a.tuple[c], a.rid) && Owns(rows, c, a.tuple[c], b.rid);
  }

  lemma OwnsOfLive(a: seq<Row>, b: seq<Row>, c: nat, k: Value, rid: nat)
    requires Live(a) == Live(b) && Owns(a, c, k, rid)
    ensures Owns(b, c, k, rid)
  {
    var t: Tuple :| Row(rid, false, t) in a && c < |t| && t[c] == k;
    LiveHolds(a, Row(rid, false, t));
    LiveHolds(b, Row(rid, false, t));
  }

  /** The live rows determine the index. */
  lemma IndexOfLive(a: seq<Row>, m: map<Value, nat>, b: seq<Row>, m': map<Value, nat>, c: nat)
    requires Agrees(a, c, m) && Agrees(b, c, m') && Live(a) == Live(b)
    ensures m == m'
  {
    forall k | k in m
      ensures k in m' && m'[k] == m[k]
    {
      OwnsOfLive(a, b, c, k, m[k]);
    }
    forall k | k in m'
      ensures k in m && m'[k] == m[k]
    {
      OwnsOfLive(b, a, c, k, m'[k]);
    }
  }

  // ---------- changing one row ----------

  /** Only the row with id rid changes: it was live with tuple `before`, and is live with tuple
      `after`. */
  ghost predicate LiveSwap(rows: seq<Row>, rows': seq<Row>, rid: nat, before: Option<Tuple>, after: Option<Tuple>) {
    && (forall r: Row :: r in rows && !r.deleted && r.rid != rid ==> r in rows')
    && (forall r: Row :: r in rows' && !r.deleted && r.rid != rid ==> r in rows)
    && (forall t: Tuple :: Row(rid, false, t) in rows <==> before == Some(t))
    && (forall t: Tuple :: Row(rid, false, t) in rows' <==> after == Some(t))
  }

  /** The key of a row in column c, unless it is NULL. */
  function KeyAt(t: Option<Tuple>, c: nat): Option<Value> {
    if t.Some? && c < |t.value| && !t.value[c].Null? then Some(t.value[c]) else None
  }

  /** The index with one key replaced. */
  ghost function MapSwap(m: map<Value, nat>, before: Option<Value>, after: Option<Value>, rid: nat): map<Value, nat> {
    var rest := if before.Some? then m - {before.value} else m;
    if after.Some? then rest[after.value := rid] else rest
  }

  /** The new key is free, or is the old one. */
  ghost predicate Free(m: map<Value, nat>, before: Option<Value>, after: Option<Value>) {
    after.Some? ==> after == before || after.value !in m
  }

  lemma OwnsSwap(rows: seq<Row>, rows': seq<Row>, rid: nat, before: Option<Tuple>, after: Option<Tuple>,
                 c: nat, k: Value, r: nat)
    requires LiveSwap(rows, rows', rid, before, after) && !k.Null?
    ensures r != rid ==> (Owns(rows', c, k, r) <==> Owns(rows, c, k, r))
    ensures Owns(rows, c, k, rid) <==> KeyAt(before, c) == Some(k)
    ensures Owns(rows', c, k, rid) <==> KeyAt(after, c) == Some(k)
  {
    if r != rid {
      if Owns(rows, c, k, r) {
        var t: Tuple :| Row(r, false, t) in rows && c < |t| && t[c] == k;
        assert Row(r, false, t) in rows';
      }
      if Owns(rows', c, k, r) {
        var t: Tuple :| Row(r, false, t) in rows' && c < |t| && t[c] == k;
        assert Row(r, false, t) in rows;
      }
    }
    if KeyAt(before, c) == Some(k) { assert Row(rid, false, before.value) in rows; }
    if KeyAt(after, c) == Some(k) { assert Row(rid, false, after.value) in rows'; }
  }

  /** Replacing a row and its key keeps the index in step. */
  lemma AgreesSwap(rows: seq<Row>, rows': seq<Row>, rid: nat, before: Option<Tuple>, after: Option<Tuple>,
                   c: nat, m: map<Value, nat>)
    requires Agrees(rows, c, m) && LiveSwap(rows, rows', rid, before, after)
    requires Free(m, KeyAt(before, c), KeyAt(after, c))
    ensures Agrees(rows', c, MapSwap(m, KeyAt(before, c), KeyAt(after, c), rid))
    ensures KeyAt(before, c).Some? ==> KeyAt(before, c).value in m && m[KeyAt(before, c).value] == rid
  {
    var m' := MapSwap(m, KeyAt(before, c), KeyAt(after, c), rid);
    if KeyAt(before, c).Some? {
      OwnsSwap(rows, rows', rid, before, after, c, KeyAt(before, c).value, rid);
    }
    forall k | k in m'
      ensures !k.Null? && Owns(rows', c, k, m'[k])
    {
      OwnsSwap(rows, rows', rid, before, after, c, k, m'[k]);
    }
    forall k, r | Owns(rows', c, k, r) && !k.Null?
      ensures k in m' && m'[k] == r
    {
      OwnsSwap(rows, rows', rid, before, after, c, k, r);
    }
  }

  // ---------- the four changes ----------

  lemma InsertSwaps(rows: seq<Row>, k: nat, rid: nat, t: Tuple)
    requires k <= |rows| && IdsBelow(rows, rid)
    ensures LiveSwap(rows, InsertAt(rows, k, Row(rid, false, t)), rid, None, Some(t))
  {
    var row := Row(rid, false, t);
    var rows' := InsertAt(rows, k, row);
    InsertedHolds(rows, k, row);
  }

  lemma InsertedHolds(rows: seq<Row>, k: nat, row: Row)
    requires k <= |rows|
    ensures forall r :: r in InsertAt(rows, k, row) <==> r in rows || r == row
  {
    Halves(rows, k);
    assert forall r :: r in rows <==> r in rows[..k] || r in rows[k..];
  }

  lemma PutHolds(rows: seq<Row>, was: Row, row: Row)
    requires DistinctIds(rows) && was in rows && was.rid == row.rid
    ensures forall r :: r in Put(rows, row) <==> r == row || (r in rows && r.rid != row.rid)
    ensures forall r :: r in rows && r.rid == row.rid ==> r == was
    ensures DistinctIds(Put(rows, row))
  {
    var i :| 0 <= i < |rows| && rows[i] == was;
    assert Put(rows, row)[i] == row;
    forall r | r in rows && r.rid != row.rid
      ensures r in Put(rows, row)
    {
      var j :| 0 <= j < |rows| && rows[j] == r;
      assert Put(rows, row)[j] == r;
    }
  }

  ghost function LiveTuple(row: Row): Option<Tuple> {
    if row.deleted then None else Some(row.tuple)
  }

  lemma PutSwaps(rows: seq<Row>, was: Row, row: Row)
    requires DistinctIds(rows) && was in rows && was.rid == row.rid
    ensures LiveSwap(rows, Put(rows, row), row.rid, LiveTuple(was), LiveTuple(row))
  {
    PutHolds(rows, was, row);
  }

  lemma AppendSwaps(rows: seq<Row>, row: Row)
    requires IndexOf(rows, row.rid) == |rows|
    ensures LiveSwap(rows, rows + [row], row.rid, None, LiveTuple(row))
  {
    InsertedHolds(rows, |rows|, row);
    assert InsertAt(rows, |rows|, row) == rows + [row];
  }

  // ---------- rows looked up by id ----------

  /** The tuple of the live row with an id. */
  ghost function Lookup(rows: seq<Row>, rid: nat): Option<Tuple> {
    var i := IndexOf(rows, rid);
    if i < |rows| && !rows[i].deleted then Some(rows[i].tuple) else None
  }

  lemma LookupHolds(rows: seq<Row>, rid: nat, t: Tuple)
    requires DistinctIds(rows)
    ensures Lookup(rows, rid) == Some(t) <==> Row(rid, false, t) in rows
  {
    var i := IndexOf(rows, rid);
    if Row(rid, false, t) in rows {
      var j :| 0 <= j < |rows| && rows[j] == Row(rid, false, t);
      assert i == j;
    }
  }

  lemma RestoredSwaps(rows: seq<Row>, row: Row)
    requires DistinctIds(rows) && Lookup(rows, row.rid).None?
    ensures LiveSwap(rows, Restored(rows, row), row.rid, None, LiveTuple(row))
  {
    var i := IndexOf(rows, row.rid);
    if i < |rows| {
      PutAt(rows, i, row);
      PutSwaps(rows, rows[i], row);
    } else {
      AppendSwaps(rows, row);
    }
  }
}
