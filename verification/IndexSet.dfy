/** The unique indexes of a table, kept in step with one row at a time. */
module IndexSet {
  import opened Common
  import opened Values
  import opened RecordCodecs
  import opened TableState
  import opened BStarTree

  /** The index takes the exchange of one key for another. */
  ghost predicate Admits(tree: Index, m: map<Value, nat>, before: Option<Value>, after: Option<Value>) {
    before != after ==>
      && (before.Some? ==> tree.ValidKey(before.value) && before.value in m)
      && (after.Some? ==> tree.ValidKey(after.value) && after.value !in m)
  }

  ghost predicate Todo(tree: Index, m: map<Value, nat>)
    reads tree
  {
    tree.Valid() && tree.Contents == m
  }

  /** The exchange has been made. */
  ghost predicate Done(tree: Index, m: map<Value, nat>, before: Option<Value>, after: Option<Value>, rid: nat)
    reads tree
  {
    && tree.Valid()
    && Admits(tree, m, before, after)
    && tree.Contents == MapSwap(m, before, after, rid)
  }

  /** The index has refused the new key, which is not valid or taken; the old one is gone. */
  ghost predicate Stuck(tree: Index, m: map<Value, nat>, before: Option<Value>, after: Option<Value>)
    reads tree
  {
    && tree.Valid()
    && after.Some? && before != after && (!tree.ValidKey(after.value) || after.value in m)
    && tree.Contents == if before.Some? then m - {before.value} else m
  }

  /** One index each, for columns that the table has. */
  ghost predicate Lined(trees: seq<Index>, columns: seq<nat>, width: nat) {
    && |trees| == |columns|
    && (forall i, j :: 0 <= i < j < |trees| ==> trees[i] != trees[j])
    && (forall i :: 0 <= i < |columns| ==> columns[i] < width)
  }

  ghost predicate AllTodo(trees: seq<Index>, from: nat, maps: seq<map<Value, nat>>)
    requires |maps| == |trees|
    reads trees
  {
    forall i {:trigger Todo(trees[i], maps[i])} :: from <= i < |trees| ==> Todo(trees[i], maps[i])
  }

  ghost predicate AllDone(trees: seq<Index>, columns: seq<nat>, upto: nat, maps: seq<map<Value, nat>>,
                          before: Option<Tuple>, after: Option<Tuple>, rid: nat)
    requires |maps| == |trees| == |columns| && upto <= |trees|
    reads trees
  {
    forall i {:trigger Done(trees[i], maps[i], KeyAt(before, columns[i]), KeyAt(after, columns[i]), rid)} ::
      0 <= i < upto ==> Done(trees[i], maps[i], KeyAt(before, columns[i]), KeyAt(after, columns[i]), rid)
  }

  ghost predicate AnyStuck(trees: seq<Index>, columns: seq<nat>, maps: seq<map<Value, nat>>,
                           before: Option<Tuple>, after: Option<Tuple>)
    requires |maps| == |trees| == |columns|
    reads trees
  {
    exists i {:trigger Stuck(trees[i], maps[i], KeyAt(before, columns[i]), KeyAt(after, columns[i]))} ::
      0 <= i < |trees| && Stuck(trees[i], maps[i], KeyAt(before, columns[i]), KeyAt(after, columns[i]))
  }

  /** Every index takes the exchange of the row's keys. */
  ghost predicate AllAdmit(trees: seq<Index>, columns: seq<nat>, maps: seq<map<Value, nat>>,
                           before: Option<Tuple>, after: Option<Tuple>)
    requires |maps| == |trees| == |columns|
  {
    forall i {:trigger Admits(trees[i], maps[i], KeyAt(before, columns[i]), KeyAt(after, columns[i]))} ::
      0 <= i < |trees| ==> Admits(trees[i], maps[i], KeyAt(before, columns[i]), KeyAt(after, columns[i]))
  }

  /** Exchanges the key of a row in one index: nothing, an insertion, a deletion or both. */
  method ReplaceKey(tree: Index, before: Option<Value>, after: Option<Value>, rid: nat, ghost m: map<Value, nat>)
    returns (status: Status)
    requires Todo(tree, m)
    requires before.Some? && before == after ==> before.value in m && m[before.value] == rid
    modifies tree
    ensures status.Ok? <==> Admits(tree, m, before, after)
    ensures status.Ok? ==> Done(tree, m, before, after, rid)
    ensures !status.Ok? && (before.Some? ==> before.value in m) ==> Stuck(tree, m, before, after)
  {
    if before.None? && after.None? {
      return Ok;
    }
    if before.None? {
      status := tree.Insert(after.value, rid);
      return;
    }
    if after.None? {
      status := tree.Delete(before.value);
      return;
    }
    if before == after {
      assert m - {before.value} + map[before.value := rid] == m;
      return Ok;
    }
    status := tree.Delete(before.value);
    if status.Ok? {
      status := tree.Insert(after.value, rid);
    }
  }

  lemma DoneAdmitted(trees: seq<Index>, columns: seq<nat>, maps: seq<map<Value, nat>>,
                     before: Option<Tuple>, after: Option<Tuple>, rid: nat)
    requires |maps| == |trees| == |columns| && AllDone(trees, columns, |trees|, maps, before, after, rid)
    ensures AllAdmit(trees, columns, maps, before, after)
  {
    forall i | 0 <= i < |trees|
      ensures Admits(trees[i], maps[i], KeyAt(before, columns[i]), KeyAt(after, columns[i]))
    {
      assert Done(trees[i], maps[i], KeyAt(before, columns[i]), KeyAt(after, columns[i]), rid);
    }
  }

  method InsertIntoIndexes(trees: seq<Index>, columns: seq<nat>, tuple: Tuple, rid: nat,
                           ghost maps: seq<map<Value, nat>>)
    returns (status: Status)
    requires Lined(trees, columns, |tuple|) && |maps| == |trees| && AllTodo(trees, 0, maps)
    modifies trees
    ensures status.Ok? <==> AllAdmit(trees, columns, maps, None, Some(tuple))
    ensures status.Ok? ==> AllDone(trees, columns, |trees|, maps, None, Some(tuple), rid)
    ensures !status.Ok? ==> AnyStuck(trees, columns, maps, None, Some(tuple))
  {
    for i := 0 to |trees|
      invariant AllTodo(trees, i, maps) && AllDone(trees, columns, i, maps, None, Some(tuple), rid)
    {
      var key := tuple[columns[i]];
      assert Todo(trees[i], maps[i]);
      if key.Null? {
        assert Done(trees[i], maps[i], KeyAt(None, columns[i]), KeyAt(Some(tuple), columns[i]), rid);
        continue;
      }
      status := trees[i].Insert(key, rid);
      if !status.Ok? {
        assert !Admits(trees[i], maps[i], KeyAt(None, columns[i]), KeyAt(Some(tuple), columns[i]));
        assert Stuck(trees[i], maps[i], KeyAt(None, columns[i]), KeyAt(Some(tuple), columns[i]));
        return;
      }
    }
    DoneAdmitted(trees, columns, maps, None, Some(tuple), rid);
    status := Ok;
  }

  method DeleteFromIndexes(trees: seq<Index>, columns: seq<nat>, tuple: Tuple, ghost rid: nat,
                           ghost maps: seq<map<Value, nat>>)
    returns (status: Status)
    requires Lined(trees, columns, |tuple|) && |maps| == |trees| && AllTodo(trees, 0, maps)
    modifies trees
    ensures status.Ok? <==> AllAdmit(trees, columns, maps, Some(tuple), None)
    ensures status.Ok? ==> AllDone(trees, columns, |trees|, maps, Some(tuple), None, rid)
  {
    for i := 0 to |trees|
      invariant AllTodo(trees, i, maps) && AllDone(trees, columns, i, maps, Some(tuple), None, rid)
    {
      var key := tuple[columns[i]];
      assert Todo(trees[i], maps[i]);
      if key.Null? {
        assert Done(trees[i], maps[i], KeyAt(Some(tuple), columns[i]), KeyAt(None, columns[i]), rid);
        continue;
      }
      status := trees[i].Delete(key);
      if !status.Ok? {
        assert !Admits(trees[i], maps[i], KeyAt(Some(tuple), columns[i]), KeyAt(None, columns[i]));
        return;
      }
    }
    DoneAdmitted(trees, columns, maps, Some(tuple), None, rid);
    status := Ok;
  }

  /** The row's present keys are in the indexes under its id. */
  ghost predicate Present(columns: seq<nat>, maps: seq<map<Value, nat>>, before: Tuple, rid: nat)
    requires |maps| == |columns|
  {
    forall i :: 0 <= i < |maps| && KeyAt(Some(before), columns[i]).Some? ==>
      var k := KeyAt(Some(before), columns[i]).value; k in maps[i] && maps[i][k] == rid
  }

  method UpdateIndexes(trees: seq<Index>, columns: seq<nat>, before: Tuple, after: Tuple, rid: nat,
                       ghost maps: seq<map<Value, nat>>)
    returns (status: Status)
    requires Lined(trees, columns, |before|) && |maps| == |trees| && AllTodo(trees, 0, maps)
    requires Present(columns, maps, before, rid)
    modifies trees
    ensures status.Ok? <==> AllAdmit(trees, columns, maps, Some(before), Some(after))
    ensures status.Ok? ==> AllDone(trees, columns, |trees|, maps, Some(before), Some(after), rid)
    ensures !status.Ok? ==> AnyStuck(trees, columns, maps, Some(before), Some(after))
  {
    for i := 0 to |trees|
      invariant AllTodo(trees, i, maps) && AllDone(trees, columns, i, maps, Some(before), Some(after), rid)
    {
      assert Todo(trees[i], maps[i]);
      var oldKey, newKey := KeyAt(Some(before), columns[i]), KeyAt(Some(after), columns[i]);
      status := ReplaceKey(trees[i], oldKey, newKey, rid, maps[i]);
      if !status.Ok? {
        assert !Admits(trees[i], maps[i], KeyAt(Some(before), columns[i]), KeyAt(Some(after), columns[i]));
        assert Stuck(trees[i], maps[i], KeyAt(Some(before), columns[i]), KeyAt(Some(after), columns[i]));
        return;
      }
    }
    DoneAdmitted(trees, columns, maps, Some(before), Some(after), rid);
    status := Ok;
  }
}
