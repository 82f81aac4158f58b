/** SELECT with a predicate: the full scan, and the index lookup that the planner puts in its place. */
module Query {
  import opened Common
  import opened Values
  import opened RecordCodecs

  datatype CompareOp = Eq | Ne | Lt | Gt | Le | Ge

  datatype Expr =
    | ColumnRef(name: string)
    | Literal(value: Value)
    | Binary(op: CompareOp, left: Expr, right: Expr)
    | And(left: Expr, right: Expr)
    | Or(left: Expr, right: Expr)
    | Between(operand: Expr, low: Expr, high: Expr)
    | Like(operand: Expr, pattern: Expr)

  // ---------- evaluation ----------

  datatype Eval = Val(v: Value) | Fault

  /** The position of a column name, of the first one when there are several. */
  function FindColumn(names: seq<string>, name: string): (i: Option<nat>)
    ensures i.Some? ==> i.value < |names| && names[i.value] == name
    ensures i.None? ==> name !in names
  {
    if names == [] then None
    else if names[0] == name then Some(0)
    else match FindColumn(names[1..], name)
         case None => None
         case Some(i) => Some(i + 1)
  }

  predicate Truthy(v: Value) {
    v.Bool? && v.b
  }

  function Compare(a: Value, b: Value, op: CompareOp): Eval {
    if a.Null? || b.Null? then Val(Bool(false))
    else if TypeOf(a) != TypeOf(b) then Fault
    else
      match op
      case Eq => Val(Bool(a == b))
      case Ne => Val(Bool(a != b))
      case Lt => Val(Bool(Less(a, b)))
      case Gt => Val(Bool(Less(b, a)))
      case Le => Val(Bool(Less(a, b) || a == b))
      case Ge => Val(Bool(!Less(a, b)))
  }

  function Within(x: Value, low: Value, high: Value): Eval {
    if x.Null? || low.Null? || high.Null? then Val(Bool(false))
    else if TypeOf(x) != TypeOf(low) || TypeOf(x) != TypeOf(high) then Fault
    else Val(Bool(!Less(x, low) && Less(x, high)))
  }

  /** How LIKE matches text; none when the pattern is not a regular expression. */
  type Matcher = (Bytes, Bytes) -> Option<bool>

  function Evaluate(like: Matcher, names: seq<string>, e: Expr, t: Tuple): Eval {
    match e
    case ColumnRef(name) =>
      var i := FindColumn(names, name);
      if i.None? || i.value >= |t| then Fault else Val(t[i.value])
    case Literal(v) => Val(v)
    case Binary(op, l, r) =>
      var a, b := Evaluate(like, names, l, t), Evaluate(like, names, r, t);
      if a.Fault? || b.Fault? then Fault else Compare(a.v, b.v, op)
    case And(l, r) =>
      var a := Evaluate(like, names, l, t);
      if a.Fault? then Fault
      else if !Truthy(a.v) then Val(Bool(false))
      else
        var b := Evaluate(like, names, r, t);
        if b.Fault? then Fault else Val(Bool(Truthy(b.v)))
    case Or(l, r) =>
      var a := Evaluate(like, names, l, t);
      if a.Fault? then Fault
      else if Truthy(a.v) then Val(Bool(true))
      else
        var b := Evaluate(like, names, r, t);
        if b.Fault? then Fault else Val(Bool(Truthy(b.v)))
    case Between(x, low, high) =>
      var a, b, c := Evaluate(like, names, x, t), Evaluate(like, names, low, t), Evaluate(like, names, high, t);
      if a.Fault? || b.Fault? || c.Fault? then Fault else Within(a.v, b.v, c.v)
    case Like(x, pattern) =>
      var a, b := Evaluate(like, names, x, t), Evaluate(like, names, pattern, t);
      if a.Fault? || b.Fault? then Fault
      else if a.v.Null? || b.v.Null? then Val(Bool(false))
      else if !a.v.Str? || !b.v.Str? then Fault
      else
        match like(a.v.s, b.v.s)
        case None => Fault
        case Some(yes) => Val(Bool(yes))
  }

  /** Comparing two values of one type is comparing their ranks; NULL compares as false, and values of
      different types do not compare. */
  lemma CompareMeaning(a: Value, b: Value, op: CompareOp)
    ensures a.Null? || b.Null? ==> Compare(a, b, op) == Val(Bool(false))
    ensures !a.Null? && !b.Null? ==> (Compare(a, b, op).Fault? <==> TypeOf(a) != TypeOf(b))
    ensures !a.Null? && !b.Null? && TypeOf(a) == TypeOf(b) ==>
              Compare(a, b, op) == Val(Bool(match op
                                            case Eq => Rank(a) == Rank(b)
                                            case Ne => Rank(a) != Rank(b)
                                            case Lt => Rank(a) < Rank(b)
                                            case Gt => Rank(a) > Rank(b)
                                            case Le => Rank(a) <= Rank(b)
                                            case Ge => Rank(a) >= Rank(b)))
  {
    RankOrder(a, b);
    RankOrder(b, a);
  }

  /** A result as a condition sees it: an error, true or false. */
  function Truth(r: Eval): Eval {
    if r.Fault? then Fault else Val(Bool(Truthy(r.v)))
  }

  /** The conditions that AND joins, from left to right, however they are nested. */
  function Conjuncts(e: Expr): seq<Expr> {
    if e.And? then Conjuncts(e.left) + Conjuncts(e.right) else [e]
  }

  function Disjuncts(e: Expr): seq<Expr> {
    if e.Or? then Disjuncts(e.left) + Disjuncts(e.right) else [e]
  }

  /** One condition after another, up to the first that is not `going`: what that one gives, or `going`
      when there is none. */
  function Chain(like: Matcher, names: seq<string>, cs: seq<Expr>, t: Tuple, going: bool): Eval {
    if cs == [] then Val(Bool(going))
    else
      var r := Truth(Evaluate(like, names, cs[0], t));
      if r == Val(Bool(going)) then Chain(like, names, cs[1..], t, going) else r
  }

  lemma {:induction false} ChainConcat(like: Matcher, names: seq<string>, a: seq<Expr>, b: seq<Expr>, t: Tuple,
                                       going: bool)
    ensures Chain(like, names, a + b, t, going) ==
            if Chain(like, names, a, t, going) == Val(Bool(going)) then Chain(like, names, b, t, going)
            else Chain(like, names, a, t, going)
  {
    if a == [] {
      assert a + b == b;
    } else {
      ChainConcat(like, names, a[1..], b, t, going);
      assert (a + b)[0] == a[0] && (a + b)[1..] == a[1..] + b;
    }
  }

  lemma {:induction false} ChainHolds(like: Matcher, names: seq<string>, cs: seq<Expr>, t: Tuple, going: bool)
    ensures Chain(like, names, cs, t, going) == Val(Bool(going)) <==>
            forall c :: c in cs ==> Truth(Evaluate(like, names, c, t)) == Val(Bool(going))
  {
    if cs != [] {
      ChainHolds(like, names, cs[1..], t, going);
      assert cs[0] in cs && forall c :: c in cs <==> c == cs[0] || c in cs[1..];
    }
  }

  /** AND evaluates its conjuncts from left to right, whatever the parentheses, up to the first that is
      false or fails; so a row satisfies it exactly when it satisfies every conjunct. */
  lemma {:induction false} ConjunctionMeaning(like: Matcher, names: seq<string>, e: Expr, t: Tuple)
    ensures Truth(Evaluate(like, names, e, t)) == Chain(like, names, Conjuncts(e), t, true)
    ensures Truth(Evaluate(like, names, e, t)) == Val(Bool(true)) <==>
            forall c :: c in Conjuncts(e) ==> Truth(Evaluate(like, names, c, t)) == Val(Bool(true))
  {
    if e.And? {
      ConjunctionMeaning(like, names, e.left, t);
      ConjunctionMeaning(like, names, e.right, t);
      ChainConcat(like, names, Conjuncts(e.left), Conjuncts(e.right), t, true);
    } else {
      assert Conjuncts(e)[1..] == [];
    }
    ChainHolds(like, names, Conjuncts(e), t, true);
  }

  /** OR evaluates its disjuncts from left to right up to the first that is true or fails; so it is
      false exactly when every disjunct is. */
  lemma {:induction false} DisjunctionMeaning(like: Matcher, names: seq<string>, e: Expr, t: Tuple)
    ensures Truth(Evaluate(like, names, e, t)) == Chain(like, names, Disjuncts(e), t, false)
    ensures Truth(Evaluate(like, names, e, t)) == Val(Bool(false)) <==>
            forall c :: c in Disjuncts(e) ==> Truth(Evaluate(like, names, c, t)) == Val(Bool(false))
  {
    if e.Or? {
      DisjunctionMeaning(like, names, e.left, t);
      DisjunctionMeaning(like, names, e.right, t);
      ChainConcat(like, names, Disjuncts(e.left), Disjuncts(e.right), t, false);
    } else {
      assert Disjuncts(e)[1..] == [];
    }
    ChainHolds(like, names, Disjuncts(e), t, false);
  }

  /** BETWEEN on values of one type is the half-open interval: at least low, and below high.  NULL is
      never within, and values of other types do not compare. */
  lemma WithinMeaning(x: Value, low: Value, high: Value)
    ensures x.Null? || low.Null? || high.Null? ==> Within(x, low, high) == Val(Bool(false))
    ensures !x.Null? && !low.Null? && !high.Null? ==>
              (Within(x, low, high).Fault? <==> !(TypeOf(x) == TypeOf(low) == TypeOf(high)))
    ensures !x.Null? && TypeOf(x) == TypeOf(low) == TypeOf(high) ==>
              Within(x, low, high) == Val(Bool(Rank(low) <= Rank(x) < Rank(high)))
  {
    RankOrder(x, low);
    RankOrder(x, high);
  }

  // ---------- the planner and the executor look at the predicate ----------

  /** The column and the literal of an equality between the two, on either side. */
  function ColumnEqLiteral(e: Expr): Option<(string, Value)> {
    if !(e.Binary? && e.op.Eq?) then None
    else if e.left.ColumnRef? && e.right.Literal? then Some((e.left.name, e.right.value))
    else if e.right.ColumnRef? && e.left.Literal? then Some((e.right.name, e.left.value))
    else None
  }

  /** The first index on a column, by position. */
  function IndexOn(indexed: seq<string>, column: string): Option<nat> {
    FindColumn(indexed, column)
  }

  /** The planner: the first equality in the conjunction whose column has an index. */
  function FindIndexedEquality(e: Expr, indexed: seq<string>): Option<(nat, Value)> {
    var eq := ColumnEqLiteral(e);
    if eq.Some? && IndexOn(indexed, eq.value.0).Some? then
      Some((IndexOn(indexed, eq.value.0).value, eq.value.1))
    else if e.And? then
      var left := FindIndexedEquality(e.left, indexed);
      if left.Some? then left else FindIndexedEquality(e.right, indexed)
    else
      None
  }

  /** The executor: the literal of the first equality in the conjunction, whatever its column. */
  function ExtractEqualityKey(e: Expr): Option<Value> {
    if e.And? then
      var left := ExtractEqualityKey(e.left);
      if left.Some? then left else ExtractEqualityKey(e.right)
    else
      var eq := ColumnEqLiteral(e);
      if eq.Some? then Some(eq.value.1) else None
  }

  /** The first equality between a column and a literal that AND joins. */
  function FirstEquality(e: Expr): Option<(string, Value)> {
    if e.And? then
      var left := FirstEquality(e.left);
      if left.Some? then left else FirstEquality(e.right)
    else
      ColumnEqLiteral(e)
  }

  /** The planner and the executor mean the same equality when the first one is on an indexed column. */
  lemma {:induction false} FirstIsChosen(e: Expr, indexed: seq<string>)
    ensures ExtractEqualityKey(e) == if FirstEquality(e).Some? then Some(FirstEquality(e).value.1) else None
    ensures FirstEquality(e).None? ==> FindIndexedEquality(e, indexed).None?
    ensures FirstEquality(e).Some? && IndexOn(indexed, FirstEquality(e).value.0).Some? ==>
              var (name, v) := FirstEquality(e).value;
              FindIndexedEquality(e, indexed) == Some((IndexOn(indexed, name).value, v))
  {
    if e.And? {
      FirstIsChosen(e.left, indexed);
      FirstIsChosen(e.right, indexed);
    }
  }

  lemma EqualityHolds(like: Matcher, names: seq<string>, e: Expr, t: Tuple)
    requires ColumnEqLiteral(e).Some? && |t| == |names| && ColumnEqLiteral(e).value.0 in names
    ensures var (name, v) := ColumnEqLiteral(e).value;
            Evaluate(like, names, e, t).Val? && Truthy(Evaluate(like, names, e, t).v) ==>
              t[FindColumn(names, name).value] == v && !v.Null?
  {
    var (name, v) := ColumnEqLiteral(e).value;
    assert Evaluate(like, names, ColumnRef(name), t) == Val(t[FindColumn(names, name).value]);
    assert Evaluate(like, names, Literal(v), t) == Val(v);
    assert (e.left == ColumnRef(name) && e.right == Literal(v)) || (e.right == ColumnRef(name) && e.left == Literal(v));
  }

  /** What the planner chose is among the conjuncts, so a row that satisfies the predicate has that
      value in that column; and the executor does find a key. */
  lemma {:induction false} ChosenHolds(like: Matcher, names: seq<string>, e: Expr, indexed: seq<string>, t: Tuple)
    requires FindIndexedEquality(e, indexed).Some?
    requires |t| == |names| && forall i :: 0 <= i < |indexed| ==> indexed[i] in names
    ensures ExtractEqualityKey(e).Some?
    ensures var (i, v) := FindIndexedEquality(e, indexed).value;
            && i < |indexed| && FindColumn(names, indexed[i]).Some?
            && (Evaluate(like, names, e, t).Val? && Truthy(Evaluate(like, names, e, t).v) ==>
                  t[FindColumn(names, indexed[i]).value] == v && !v.Null?)
  {
    var eq := ColumnEqLiteral(e);
    if eq.Some? && IndexOn(indexed, eq.value.0).Some? {
      EqualityHolds(like, names, e, t);
    } else if e.And? {
      if FindIndexedEquality(e.left, indexed).Some? {
        ChosenHolds(like, names, e.left, indexed, t);
      } else {
        ChosenHolds(like, names, e.right, indexed, t);
      }
    }
  }

  // ---------- scanning ----------

  datatype Answer = Rows(rows: seq<Tuple>) | Failed

  function Project(t: Tuple, columns: Option<seq<nat>>): Tuple
    requires columns.Some? ==> forall i :: 0 <= i < |columns.value| ==> columns.value[i] < |t|
  {
    if columns.None? then t else seq(|columns.value|, i requires 0 <= i < |columns.value| => t[columns.value[i]])
  }

  /** A query on a table: its column names, the condition, the columns to show. */
  datatype Select = Select(like: Matcher, names: seq<string>, condition: Expr, columns: Option<seq<nat>>) {
    predicate Fits(t: Tuple) {
      |t| == |names| && (columns.Some? ==> forall i :: 0 <= i < |columns.value| ==> columns.value[i] < |names|)
    }

    function Test(t: Tuple): Eval {
      Evaluate(like, names, condition, t)
    }

    predicate Matches(t: Tuple) {
      Test(t).Val? && Truthy(Test(t).v)
    }
  }

  ghost predicate AllFit(q: Select, rows: seq<Row>) {
    forall i :: 0 <= i < |rows| ==> q.Fits(rows[i].tuple)
  }

  ghost predicate NoFaults(q: Select, rows: seq<Row>) {
    forall i :: 0 <= i < |rows| ==> q.Test(rows[i].tuple).Val?
  }

  /** The projected rows that satisfy the predicate, in scan order. */
  ghost function Matching(q: Select, rows: seq<Row>): seq<Tuple>
    requires AllFit(q, rows)
  {
    if rows == [] then []
    else
      var front, row := rows[..|rows| - 1], rows[|rows| - 1];
      Matching(q, front) + if q.Matches(row.tuple) then [Project(row.tuple, q.columns)] else []
  }

  /** The full scan; it fails at the first row on which the predicate cannot be evaluated. */
  method SeqScan(q: Select, rows: seq<Row>) returns (a: Answer)
    requires AllFit(q, rows)
    ensures a == if NoFaults(q, rows) then Rows(Matching(q, rows)) else Failed
  {
    var out := [];
    for i := 0 to |rows|
      invariant NoFaults(q, rows[..i]) && out == Matching(q, rows[..i])
    {
      assert rows[..i + 1][..i] == rows[..i];
      if q.Matches(rows[i].tuple) {
        out := out + [Project(rows[i].tuple, q.columns)];
      }
      if q.Test(rows[i].tuple).Fault? {
        return Failed;
      }
    }
    assert rows[..|rows|] == rows;
    a := Rows(out);
  }

  ghost function WithId(rows: seq<Row>, rid: nat): seq<Row> {
    if rows == [] then []
    else
      var front, row := rows[..|rows| - 1], rows[|rows| - 1];
      WithId(front, rid) + if row.rid == rid then [row] else []
  }

  lemma {:induction false} WithIdHolds(rows: seq<Row>, rid: nat, row: Row)
    ensures row in WithId(rows, rid) <==> row in rows && row.rid == rid
  {
    if rows != [] {
      var front, last := rows[..|rows| - 1], rows[|rows| - 1];
      WithIdHolds(front, rid, row);
      assert rows == front + [last];
    }
  }

  lemma WithIdStep(rows: seq<Row>, rid: nat, i: nat)
    requires i < |rows|
    ensures WithId(rows[..i + 1], rid) ==
            if rows[i].rid == rid then WithId(rows[..i], rid) + [rows[i]] else WithId(rows[..i], rid)
  {
    assert rows[..i + 1][..i] == rows[..i];
  }

  lemma MatchingStep(q: Select, rows: seq<Row>, row: Row)
    requires AllFit(q, rows + [row])
    ensures AllFit(q, rows) && q.Fits(row.tuple)
    ensures Matching(q, rows + [row]) ==
            Matching(q, rows) + if q.Matches(row.tuple) then [Project(row.tuple, q.columns)] else []
  {
    assert (rows + [row])[..|rows|] == rows && (rows + [row])[|rows|] == row;
    assert forall i :: 0 <= i < |rows| ==> (rows + [row])[i] == rows[i];
  }

  /** The lookup: only the row that the index names is looked at. */
  method ScanOne(q: Select, rows: seq<Row>, rid: nat) returns (a: Answer)
    requires AllFit(q, rows) && AllFit(q, WithId(rows, rid))
    ensures a == if NoFaults(q, WithId(rows, rid)) then Rows(Matching(q, WithId(rows, rid))) else Failed
  {
    var out := [];
    for i := 0 to |rows|
      invariant AllFit(q, WithId(rows[..i], rid)) && NoFaults(q, WithId(rows[..i], rid))
      invariant out == Matching(q, WithId(rows[..i], rid))
    {
      PrefixFits(q, rows, rid, i + 1);
      WithIdStep(rows, rid, i);
      if rows[i].rid != rid {
        continue;
      }
      MatchingStep(q, WithId(rows[..i], rid), rows[i]);
      if q.Matches(rows[i].tuple) {
        out := out + [Project(rows[i].tuple, q.columns)];
      }
      if q.Test(rows[i].tuple).Fault? {
        FaultStays(q, rows, rid, i);
        return Failed;
      }
    }
    assert rows[..|rows|] == rows;
    a := Rows(out);
  }

  lemma PrefixFits(q: Select, rows: seq<Row>, rid: nat, n: nat)
    requires AllFit(q, rows) && n <= |rows|
    ensures AllFit(q, WithId(rows[..n], rid))
  {
    var found := WithId(rows[..n], rid);
    forall i | 0 <= i < |found|
      ensures q.Fits(found[i].tuple)
    {
      WithIdHolds(rows[..n], rid, found[i]);
      assert found[i] in rows;
    }
  }

  lemma FaultStays(q: Select, rows: seq<Row>, rid: nat, i: nat)
    requires i < |rows| && rows[i].rid == rid && q.Test(rows[i].tuple).Fault?
    ensures !NoFaults(q, WithId(rows, rid))
  {
    WithIdHolds(rows, rid, rows[i]);
    var j :| 0 <= j < |WithId(rows, rid)| && WithId(rows, rid)[j] == rows[i];
  }
}
