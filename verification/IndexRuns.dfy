/** Whole runs of an index against a finite map. */
module IndexRuns {
  import opened Common
  import opened Values
  import opened IndexTree
  import opened IndexScan
  import opened IndexHeight
  import opened BStarTree

  datatype Op =
    | Put(key: Value, rid: nat)
    | Drop(key: Value)
    | Get(key: Value)
    | Scan(range: KeyRange)

  datatype Reply =
    | Did(status: Status)
    | Got(status: Status, found: Option<nat>)
    | Listed(status: Status, rids: seq<nat>)

  /** What a finite map with keys of one type and bounded size becomes by one operation. */
  ghost function Next(t: Index, m: map<Value, nat>, op: Op): map<Value, nat> {
    match op
    case Put(k, rid) => if t.ValidKey(k) && k !in m then m[k := rid] else m
    case Drop(k) => if t.ValidKey(k) then m - {k} else m
    case Get(_) => m
    case Scan(_) => m
  }

  /** The reply that the map gives to one operation. */
  ghost predicate Answers(t: Index, m: map<Value, nat>, op: Op, reply: Reply) {
    match op
    case Put(k, _) =>
      reply == Did(if !t.ValidKey(k) then InvalidArgument else if k in m then AlreadyExists else Ok)
    case Drop(k) =>
      reply == Did(if !t.ValidKey(k) then InvalidArgument else if k in m then Ok else NotFound)
    case Get(k) =>
      && reply.Got?
      && reply.status == (if t.ValidKey(k) then Ok else InvalidArgument)
      && (t.ValidKey(k) ==> reply.found == if k in m then Some(m[k]) else None)
    case Scan(range) =>
      && reply.Listed?
      && reply.status == (if t.ValidRange(range) then Ok else InvalidArgument)
      && (t.ValidRange(range) ==> exists hits :: Listing(m, range, hits, reply.rids))
  }

  ghost function After(t: Index, m: map<Value, nat>, ops: seq<Op>): map<Value, nat> {
    if ops == [] then m else Next(t, After(t, m, ops[..|ops| - 1]), ops[|ops| - 1])
  }

  method Apply(t: Index, op: Op) returns (reply: Reply)
    requires t.Valid()
    modifies t
    ensures t.Valid() && t.Contents == Next(t, old(t.Contents), op)
    ensures Answers(t, old(t.Contents), op, reply)
  {
    match op {
      case Put(k, rid) =>
        var status := t.Insert(k, rid);
        reply := Did(status);
      case Drop(k) =>
        var status := t.Delete(k);
        reply := Did(status);
        if status.NotFound? { assert t.Contents - {k} == t.Contents; }
      case Get(k) =>
        var status, found := t.Find(k);
        reply := Got(status, found);
      case Scan(range) =>
        var status, rids;
        ghost var hits;
        status, rids, hits := t.RangeSearch(range);
        reply := Listed(status, rids);
    }
  }

  /** The replies so far are those of the finite map that started as m. */
  ghost predicate Traced(t: Index, m: map<Value, nat>, ops: seq<Op>, replies: seq<Reply>) {
    && |replies| <= |ops|
    && forall i :: 0 <= i < |replies| ==> Answers(t, After(t, m, ops[..i]), ops[i], replies[i])
  }

  lemma TraceStep(t: Index, m: map<Value, nat>, ops: seq<Op>, replies: seq<Reply>, reply: Reply)
    requires |replies| < |ops| && Traced(t, m, ops, replies)
    requires Answers(t, After(t, m, ops[..|replies|]), ops[|replies|], reply)
    ensures Traced(t, m, ops, replies + [reply])
    ensures After(t, m, ops[..|replies| + 1]) == Next(t, After(t, m, ops[..|replies|]), ops[|replies|])
  {
    assert ops[..|replies| + 1][..|replies|] == ops[..|replies|];
    forall i | 0 <= i < |replies| + 1
      ensures Answers(t, After(t, m, ops[..i]), ops[i], (replies + [reply])[i])
    {
      if i < |replies| { assert Answers(t, After(t, m, ops[..i]), ops[i], replies[i]); }
    }
  }

  /** Some operations have been answered, and the tree holds what the map holds. */
  ghost predicate Upto(t: Index, m: map<Value, nat>, ops: seq<Op>, replies: seq<Reply>)
    reads t
  {
    t.Valid() && Traced(t, m, ops, replies) && t.Contents == After(t, m, ops[..|replies|])
  }

  method Advance(t: Index, ghost m: map<Value, nat>, ops: seq<Op>, replies: seq<Reply>) returns (replies': seq<Reply>)
    requires |replies| < |ops| && Upto(t, m, ops, replies)
    modifies t
    ensures |replies'| == |replies| + 1 && Upto(t, m, ops, replies')
  {
    var reply := Apply(t, ops[|replies|]);
    TraceStep(t, m, ops, replies, reply);
    replies' := replies + [reply];
  }

  /** Every run of an index from any valid state gives the replies of the finite map, through every
      split, redistribution, merge and change of root, and ends in a well-formed tree. */
  method Run(t: Index, ops: seq<Op>) returns (replies: seq<Reply>)
    requires t.Valid()
    modifies t
    ensures t.Valid() && WellShaped(t)
    ensures t.Contents == After(t, old(t.Contents), ops)
    ensures |replies| == |ops| && Traced(t, old(t.Contents), ops, replies)
  {
    ghost var m := t.Contents;
    replies := [];
    while |replies| < |ops|
      invariant Upto(t, m, ops, replies)
      decreases |ops| - |replies|
    {
      replies := Advance(t, m, ops, replies);
    }
    assert ops[..|ops|] == ops;
    Shape(t);
  }

  /** What every reachable index looks like on disk. */
  ghost predicate WellShaped(t: Index)
    reads t
  {
    t.root.At? ==>
      && Inv(t.S(), {})
      && t.firstLeaf == LinkAt(t.leaves, 0)
      && Chained(t.S())
      && (t.height >= 2 ==> |t.Contents| >= 2 * (Pow(t.degree, t.height - 2) * (t.degree - 1)))
      && (forall x :: x in t.info ==> x in t.pages && (t.pages[x].isRoot <==> x == t.root.id))
  }

  lemma Shape(t: Index)
    requires t.Valid()
    ensures WellShaped(t)
  {
    if t.root.At? {
      ChainOfIndex(t.S(), {});
      if t.height >= 2 { TreeKeys(t.S()); }
      forall x | x in t.info
        ensures x in t.pages && (t.pages[x].isRoot <==> x == t.root.id)
      {
        assert NodeOk(t.S(), x);
      }
    }
  }

  /** No page is reached twice: every page below the root is a child in exactly one place, and the root
      in none. */
  lemma NoSharing(t: Index, x: PageId, i: nat, y: PageId, j: nat)
    requires t.Valid() && t.root.At?
    requires x in t.info && x in t.pages && t.pages[x].Internal? && i < |t.pages[x].kids|
    requires y in t.info && y in t.pages && t.pages[y].Internal? && j < |t.pages[y].kids|
    ensures t.pages[x].kids[i] != t.root.id
    ensures t.pages[x].kids[i] == t.pages[y].kids[j] ==> x == y && i == j
  {
    var s := t.S();
    assert NodeOk(s, x) && NodeOk(s, y) && NodeOk(s, t.root.id);
    assert KidOk(s, x, i) && KidOk(s, y, j);
    assert s.info[x].height <= s.height;
  }
}
