/** Consistent hashing: nodes own points on a ring, and a key belongs to the next point. */
module ConsistentHash {
  import opened Common

  type Node = string
  type Point = nat

  type Ring = map<Point, Node>

  /** The point that owns hash h: the first one at or after it, or the first of all. */
  ghost predicate Owns(ring: Ring, h: Point, p: Point) {
    && p in ring
    && if h <= p then forall q :: q in ring && h <= q ==> p <= q
       else forall q :: q in ring ==> q < h && p <= q
  }

  /** A node's points. */
  ghost function Points(point: (Node, nat) -> Point, replicas: nat, n: Node): set<Point> {
    set i | 0 <= i < replicas :: point(n, i)
  }

  /** Adding a node takes its points, also from others. */
  ghost function Added(ring: Ring, points: set<Point>, n: Node): Ring {
    map p | p in ring.Keys + points :: if p in points then n else ring[p]
  }

  ghost function Removed(ring: Ring, points: set<Point>): Ring {
    ring - points
  }

  /** Adding a node leaves a key where it was, or gives it to the new node. */
  lemma AddMovesOnlyToNew(ring: Ring, points: set<Point>, n: Node, h: Point, p: Point, q: Point)
    requires Owns(ring, h, p) && Owns(Added(ring, points, n), h, q)
    ensures Added(ring, points, n)[q] == n || (q == p && Added(ring, points, n)[q] == ring[p])
  {
    var more := Added(ring, points, n);
    if q !in points {
      assert q in ring;
      assert p in more;
      assert Owns(ring, h, q);
    }
  }

  /** Points that nobody else has: adding and removing a node leaves the ring exactly as it was, and
      only then. */
  lemma RemoveUndoesAdd(ring: Ring, points: set<Point>, n: Node)
    ensures Removed(Added(ring, points, n), points) == ring <==> points !! ring.Keys
  {
    var back := Removed(Added(ring, points, n), points);
    if points !! ring.Keys {
      assert forall p :: p in back <==> p in ring;
    } else {
      var p :| p in points && p in ring;
      assert p !in back;
    }
  }

  /** Removing a node leaves every key of another node where it is exactly when no other node has one of
      its points. */
  lemma RemoveMovesOnlyItsOwn(ring: Ring, points: set<Point>, n: Node)
    ensures (forall h, p :: Owns(ring, h, p) && ring[p] != n ==> Owns(Removed(ring, points), h, p))
            <==> forall r :: r in points && r in ring ==> ring[r] == n
  {
    var rest := Removed(ring, points);
    if forall r :: r in points && r in ring ==> ring[r] == n {
      forall h, p | Owns(ring, h, p) && ring[p] != n
        ensures Owns(rest, h, p)
      {
        assert p in rest;
      }
    } else {
      var r :| r in points && r in ring && ring[r] != n;
      assert Owns(ring, r, r);
    }
  }

  class HashRing {
    const replicas: nat
    const point: (Node, nat) -> Point   // the hash of a virtual node
    const hash: string -> Point         // the hash of a key

    var ring: Ring

    constructor (replicas: nat, point: (Node, nat) -> Point, hash: string -> Point)
      ensures this.replicas == replicas && this.point == point && this.hash == hash && ring == map[] && Valid()
    {
      this.replicas, this.point, this.hash, ring := replicas, point, hash, map[];
    }

    ghost function PointsOf(n: Node): set<Point> {
      Points(point, replicas, n)
    }

    /** A node is only found at its own points. */
    ghost predicate Valid()
      reads this
    {
      forall p :: p in ring ==> p in PointsOf(ring[p])
    }

    method AddNode(n: Node)
      requires Valid()
      modifies this
      ensures Valid() && ring == Added(old(ring), PointsOf(n), n)
    {
      for i := 0 to replicas
        invariant ring == Added(old(ring), Points(point, i, n), n)
      {
        PointsGrow(i, n);
        ring := ring[point(n, i) := n];
      }
    }

    lemma PointsGrow(i: nat, n: Node)
      ensures Points(point, i + 1, n) == Points(point, i, n) + {point(n, i)}
    {
    }

    /** Afterwards no point, and so no key, belongs to the node. */
    method RemoveNode(n: Node)
      requires Valid()
      modifies this
      ensures Valid() && ring == Removed(old(ring), PointsOf(n))
      ensures forall p :: p in ring ==> ring[p] != n
    {
      for i := 0 to replicas
        invariant ring == Removed(old(ring), Points(point, i, n))
      {
        PointsGrow(i, n);
        ring := ring - {point(n, i)};
      }
    }

    /** The node of the point that owns the key; none only when the ring is empty. */
    method GetNode(key: string) returns (node: Option<Node>, ghost p: Point)
      ensures node.None? <==> ring == map[]
      ensures node.Some? ==> Owns(ring, hash(key), p) && node.value == ring[p]
      ensures node.Some? ==> forall q :: Owns(ring, hash(key), q) ==> q == p
    {
      p := 0;
      if ring == map[] {
        return None, p;
      }
      var h := hash(key);
      var bound := LowerBound(ring.Keys, h);
      if bound.None? {
        var first := LowerBound(ring.Keys, 0);
        NotEmpty(ring);
        p := first.value;
        return Some(ring[first.value]), p;
      }
      p := bound.value;
      node := Some(ring[bound.value]);
    }

    static lemma NotEmpty(ring: Ring)
      requires ring != map[]
      ensures exists p :: p in ring && 0 <= p
    {
      assert ring.Keys != {};
      var p :| p in ring.Keys;
    }

    /** The least point at or after h. */
    static method LowerBound(points: set<Point>, h: Point) returns (r: Option<Point>)
      ensures r.None? ==> forall p :: p in points ==> p < h
      ensures r.Some? ==> r.value in points && h <= r.value && forall p :: p in points && h <= p ==> r.value <= p
    {
      r := None;
      var todo := points;
      while todo != {}
        invariant todo <= points
        invariant r.None? ==> forall p :: p in points && p !in todo ==> p < h
        invariant r.Some? ==> r.value in points && h <= r.value
        invariant r.Some? ==> forall p :: p in points && p !in todo && h <= p ==> r.value <= p
        decreases |todo|
      {
        var p :| p in todo;
        if h <= p && (r.None? || p < r.value) {
          r := Some(p);
        }
        todo := todo - {p};
      }
    }
  }

  /** When all points collide, the last node to come takes the whole ring, and leaves nothing behind. */
  method Collide(a: Node, b: Node, p: Point, key: string)
    returns (ring: HashRing, before: Option<Node>, after: Option<Node>)
    requires a != b
    ensures before == Some(a) && after.None?
  {
    var point: (Node, nat) -> Point := (_, _) => p;
    ring := new HashRing(1, point, _ => p);
    OnePoint(point, a, p);
    OnePoint(point, b, p);
    ring.AddNode(a);
    assert p in ring.ring && ring.ring[p] == a;
    ghost var q;
    before, q := ring.GetNode(key);
    ring.AddNode(b);
    ring.RemoveNode(b);
    assert ring.ring == map[];
    after, q := ring.GetNode(key);
  }

  lemma OnePoint(point: (Node, nat) -> Point, n: Node, p: Point)
    requires point(n, 0) == p
    ensures Points(point, 1, n) == {p}
  {
    assert point(n, 0) in Points(point, 1, n);
  }
}
