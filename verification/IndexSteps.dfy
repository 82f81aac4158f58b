/** What each elementary rearrangement of index pages keeps. */
module IndexSteps {
  import opened Sequences
  import opened Values
  import opened IndexTree

  ghost function OnPath(path: seq<Step>, z: PageId): set<PageId> {
    (set j | 0 <= j < |path| :: path[j].pid) + {z}
  }

  ghost function WithKey(g: map<PageId, Info>, on: set<PageId>, k: Value): map<PageId, Info> {
    map x | x in g :: if x in on then g[x].(keys := g[x].keys + {k}) else g[x]
  }

  ghost function AddKeyTo(s: Snap, path: seq<Step>, z: PageId, pos: nat, k: Value, rid: nat): Snap
    requires z in s.pages && s.pages[z].Leaf? && pos <= |s.pages[z].entries|
  {
    s.(pages := s.pages[z := s.pages[z].(entries := InsertAt(s.pages[z].entries, pos, Entry(k, rid)))],
       contents := s.contents[k := rid],
       info := WithKey(s.info, OnPath(path, z), k))
  }

  /** A page off the path has no child on it. */
  lemma KidsOffPath(s: Snap, weak: set<PageId>, path: seq<Step>, z: PageId, x: PageId, i: nat)
    requires Inv(s, weak) && PathOk(s, path, z)
    requires x in s.info && x in s.pages && s.pages[x].Internal? && KidOk(s, x, i)
    ensures s.pages[x].kids[i] in OnPath(path, z) ==>
              exists j :: 0 <= j < |path| && path[j] == Step(x, i)
  {
    var y := s.pages[x].kids[i];
    assert NodeOk(s, x) && NodeOk(s, y);
    assert y != s.root;
    if y in OnPath(path, z) {
      var j := if y == z then |path| else (var j :| 0 <= j < |path| && path[j].pid == y; j);
      assert Target(path, z, j) == y;
      assert StepOk(s, path, z, j - 1);
      var w := path[j - 1].pid;
      assert NodeOk(s, w);
      assert KidOk(s, w, path[j - 1].idx);
      assert path[j - 1] == Step(x, i);
    }
  }

  /** Which pages of the path are leaves: only the last. */
  lemma LeafOnPath(s: Snap, path: seq<Step>, z: PageId, x: PageId)
    requires PathOk(s, path, z) && x in OnPath(path, z) && x != z
    ensures x in s.pages && s.pages[x].Internal?
    ensures exists j :: 0 <= j < |path| && path[j].pid == x && StepOk(s, path, z, j)
  {
    var j :| 0 <= j < |path| && path[j].pid == x;
    assert StepOk(s, path, z, j);
  }

  ghost predicate Between(es: seq<Entry>, pos: nat, k: Value) {
    && pos <= |es|
    && (forall i :: 0 <= i < pos ==> Rank(es[i].key) < Rank(k))
    && (forall i :: pos <= i < |es| ==> Rank(k) < Rank(es[i].key))
  }

  lemma InsertEntry(es: seq<Entry>, pos: nat, e: Entry)
    requires AscendingEntries(es) && Between(es, pos, e.key)
    ensures AscendingEntries(InsertAt(es, pos, e))
    ensures KeySet(InsertAt(es, pos, e)) == KeySet(es) + {e.key}
  {
    var es' := InsertAt(es, pos, e);
    forall a | a in KeySet(es) + {e.key}
      ensures a in KeySet(es')
    {
      if a == e.key {
        assert es'[pos].key == a;
      } else {
        var i :| 0 <= i < |es| && es[i].key == a;
        assert es'[if i < pos then i else i + 1].key == a;
      }
    }
  }

  /** Storing a new key in the leaf that its search leads to. */
  lemma AddKey(s: Snap, path: seq<Step>, z: PageId, pos: nat, k: Value, rid: nat)
    requires Inv(s, {}) && PathOk(s, path, z) && Follows(s, path, z, k)
    requires k !in s.contents
    requires z in s.pages && s.pages[z].Leaf? && Between(s.pages[z].entries, pos, k)
    ensures Inv(AddKeyTo(s, path, z, pos, k, rid), {z})
    ensures PathOk(AddKeyTo(s, path, z, pos, k, rid), path, z)
  {
    var s' := AddKeyTo(s, path, z, pos, k, rid);
    var on := OnPath(path, z);
    assert s.root in on by {
      assert Target(path, z, 0) == s.root;
      if 0 < |path| { assert path[0].pid in on; }
    }
    forall j | 0 <= j < |path|
      ensures StepOk(s', path, z, j)
    {
      assert StepOk(s, path, z, j);
    }
    forall x | x in s'.info
      ensures NodeOk(s', x)
    {
      assert NodeOk(s, x);
      if s.pages[x].Leaf? {
        AddKeyLeaf(s, path, z, pos, k, rid, x);
      } else {
        forall i: nat | i < |s.pages[x].kids|
          ensures KidOk(s', x, i)
        {
          AddKeyKid(s, path, z, pos, k, rid, x, i);
        }
      }
    }
    AddKeyRest(s, path, z, pos, k, rid);
  }

  lemma AddKeyRest(s: Snap, path: seq<Step>, z: PageId, pos: nat, k: Value, rid: nat)
    requires Inv(s, {}) && z in s.pages && s.pages[z].Leaf? && pos <= |s.pages[z].entries|
    ensures var s' := AddKeyTo(s, path, z, pos, k, rid);
            && (forall x {:trigger Full(s', x)} :: x in s'.info && x !in {z} ==> Full(s', x))
            && (forall x {:trigger UpOk(s', x)} :: x in s'.info && x != s'.root ==> UpOk(s', x))
  {
    var s' := AddKeyTo(s, path, z, pos, k, rid);
    forall x | x in s'.info && x !in {z}
      ensures Full(s', x)
    {
      assert Full(s, x);
    }
    forall x | x in s'.info && x != s'.root
      ensures UpOk(s', x)
    {
      assert UpOk(s, x);
    }
  }

  /** The leaf that gets the key. */
  lemma AddKeyHere(s: Snap, path: seq<Step>, z: PageId, pos: nat, k: Value, rid: nat)
    requires NodeOk(s, z) && s.pages[z].Leaf? && k !in s.contents && Between(s.pages[z].entries, pos, k)
    ensures NodeOk(AddKeyTo(s, path, z, pos, k, rid), z)
  {
    var s' := AddKeyTo(s, path, z, pos, k, rid);
    InsertEntry(s.pages[z].entries, pos, Entry(k, rid));
    assert s'.info[z] == s.info[z].(keys := s.info[z].keys + {k});
  }

  lemma AddKeyLeaf(s: Snap, path: seq<Step>, z: PageId, pos: nat, k: Value, rid: nat, x: PageId)
    requires Inv(s, {}) && PathOk(s, path, z)
    requires k !in s.contents
    requires z in s.pages && s.pages[z].Leaf? && Between(s.pages[z].entries, pos, k)
    requires x in s.info && NodeOk(s, x) && s.pages[x].Leaf?
    ensures NodeOk(AddKeyTo(s, path, z, pos, k, rid), x)
  {
    var s' := AddKeyTo(s, path, z, pos, k, rid);
    if x == z {
      AddKeyHere(s, path, z, pos, k, rid);
    } else {
      assert x !in OnPath(path, z) by {
        if x in OnPath(path, z) { LeafOnPath(s, path, z, x); }
      }
      assert s'.pages[x] == s.pages[x] && s'.info[x] == s.info[x];
    }
  }

  lemma SlotUnique(seps: seq<Value>, i: int, j: int, k: Value)
    requires Ascending(seps) && InSlot(seps, i, k) && InSlot(seps, j, k)
    ensures i == j
  {
  }

  /** A child is on the path of k exactly when its parent is and k belongs to its slot. */
  lemma RouteKid(s: Snap, weak: set<PageId>, path: seq<Step>, z: PageId, k: Value, x: PageId, i: nat)
    requires Inv(s, weak) && PathOk(s, path, z) && Follows(s, path, z, k)
    requires z in s.pages && s.pages[z].Leaf?
    requires x in s.info && NodeOk(s, x) && s.pages[x].Internal? && KidOk(s, x, i)
    ensures s.pages[x].kids[i] in OnPath(path, z) <==> x in OnPath(path, z) && InSlot(s.pages[x].seps, i, k)
  {
    var y := s.pages[x].kids[i];
    if y in OnPath(path, z) {
      KidsOffPath(s, weak, path, z, x, i);
      var j :| 0 <= j < |path| && path[j] == Step(x, i);
      assert StepOk(s, path, z, j);
    }
    if x in OnPath(path, z) && InSlot(s.pages[x].seps, i, k) {
      LeafOnPath(s, path, z, x);
      var j :| 0 <= j < |path| && path[j].pid == x && StepOk(s, path, z, j);
      SlotUnique(s.pages[x].seps, path[j].idx, i, k);
      assert y == Target(path, z, j + 1);
    }
  }

  lemma AddKeyKid(s: Snap, path: seq<Step>, z: PageId, pos: nat, k: Value, rid: nat, x: PageId, i: nat)
    requires Inv(s, {}) && PathOk(s, path, z) && Follows(s, path, z, k)
    requires z in s.pages && s.pages[z].Leaf? && pos <= |s.pages[z].entries|
    requires x in s.info && NodeOk(s, x) && s.pages[x].Internal? && i < |s.pages[x].kids|
    ensures KidOk(AddKeyTo(s, path, z, pos, k, rid), x, i)
  {
    assert KidOk(s, x, i);
    RouteKid(s, {}, path, z, k, x, i);
  }

  // ---------- removing a key ----------

  ghost function WithoutKey(g: map<PageId, Info>, on: set<PageId>, k: Value): map<PageId, Info> {
    map x | x in g :: if x in on then g[x].(keys := g[x].keys - {k}) else g[x]
  }

  ghost function DropKeyFrom(s: Snap, path: seq<Step>, z: PageId, pos: nat): Snap
    requires z in s.pages && s.pages[z].Leaf? && pos < |s.pages[z].entries|
  {
    var k := s.pages[z].entries[pos].key;
    s.(pages := s.pages[z := s.pages[z].(entries := RemoveAt(s.pages[z].entries, pos))],
       contents := s.contents - {k},
       info := WithoutKey(s.info, OnPath(path, z), k))
  }

  lemma RemoveEntry(es: seq<Entry>, pos: nat)
    requires AscendingEntries(es) && pos < |es|
    ensures AscendingEntries(RemoveAt(es, pos))
    ensures KeySet(RemoveAt(es, pos)) == KeySet(es) - {es[pos].key}
  {
    var es' := RemoveAt(es, pos);
    forall a | a in KeySet(es) - {es[pos].key}
      ensures a in KeySet(es')
    {
      var i :| 0 <= i < |es| && es[i].key == a;
      assert es'[if i < pos then i else i - 1].key == a;
    }
  }

  /** Removing a key from the leaf that its search leads to. */
  lemma DropKey(s: Snap, path: seq<Step>, z: PageId, pos: nat)
    requires Inv(s, {}) && PathOk(s, path, z)
    requires z in s.pages && s.pages[z].Leaf? && pos < |s.pages[z].entries|
    requires Follows(s, path, z, s.pages[z].entries[pos].key)
    ensures Inv(DropKeyFrom(s, path, z, pos), {z})
    ensures PathOk(DropKeyFrom(s, path, z, pos), path, z)
  {
    var s' := DropKeyFrom(s, path, z, pos);
    var k := s.pages[z].entries[pos].key;
    var on := OnPath(path, z);
    assert s.root in on by {
      assert Target(path, z, 0) == s.root;
      if 0 < |path| { assert path[0].pid in on; }
    }
    forall j | 0 <= j < |path|
      ensures StepOk(s', path, z, j)
    {
      assert StepOk(s, path, z, j);
    }
    forall x | x in s'.info
      ensures NodeOk(s', x)
    {
      assert NodeOk(s, x);
      if s.pages[x].Leaf? {
        DropKeyLeaf(s, path, z, pos, x);
      } else {
        forall i: nat | i < |s.pages[x].kids|
          ensures KidOk(s', x, i)
        {
          assert KidOk(s, x, i);
          RouteKid(s, {}, path, z, k, x, i);
        }
      }
    }
    DropKeyRest(s, path, z, pos);
  }

  lemma DropKeyRest(s: Snap, path: seq<Step>, z: PageId, pos: nat)
    requires Inv(s, {}) && PathOk(s, path, z)
    requires z in s.pages && s.pages[z].Leaf? && pos < |s.pages[z].entries|
    requires Follows(s, path, z, s.pages[z].entries[pos].key)
    ensures var s' := DropKeyFrom(s, path, z, pos);
            && (forall x {:trigger Full(s', x)} :: x in s'.info && x !in {z} ==> Full(s', x))
            && (forall x {:trigger UpOk(s', x)} :: x in s'.info && x != s'.root ==> UpOk(s', x))
  {
    var s' := DropKeyFrom(s, path, z, pos);
    forall x | x in s'.info && x !in {z}
      ensures Full(s', x)
    {
      DropKeyFull(s, path, z, pos, x);
    }
    forall x | x in s'.info && x != s'.root
      ensures UpOk(s', x)
    {
      assert UpOk(s, x);
    }
  }

  /** A key lives in one leaf only: the one its search leads to. */
  lemma DropKeyLeaf(s: Snap, path: seq<Step>, z: PageId, pos: nat, x: PageId)
    requires Inv(s, {}) && PathOk(s, path, z)
    requires z in s.pages && s.pages[z].Leaf? && pos < |s.pages[z].entries|
    requires Follows(s, path, z, s.pages[z].entries[pos].key)
    requires x in s.info && NodeOk(s, x) && s.pages[x].Leaf?
    ensures NodeOk(DropKeyFrom(s, path, z, pos), x)
  {
    var s' := DropKeyFrom(s, path, z, pos);
    var k := s.pages[z].entries[pos].key;
    if x == z {
      RemoveEntry(s.pages[z].entries, pos);
      assert NodeOk(s, z);
    } else {
      assert x !in OnPath(path, z) by {
        if x in OnPath(path, z) { LeafOnPath(s, path, z, x); }
      }
      assert k !in s.info[x].keys by {
        if k in s.info[x].keys { LeavesOfKey(s, {}, path, z, k, x); }
      }
      forall i | 0 <= i < |s.pages[x].entries|
        ensures s.pages[x].entries[i].key in s'.contents
      {
        assert s.pages[x].entries[i].key in KeySet(s.pages[x].entries);
      }
    }
  }

  lemma DropKeyFull(s: Snap, path: seq<Step>, z: PageId, pos: nat, x: PageId)
    requires Inv(s, {}) && PathOk(s, path, z)
    requires z in s.pages && s.pages[z].Leaf? && pos < |s.pages[z].entries|
    requires Follows(s, path, z, s.pages[z].entries[pos].key)
    requires x in s.info && x != z
    ensures Full(DropKeyFrom(s, path, z, pos), x)
  {
    var k := s.pages[z].entries[pos].key;
    assert Full(s, x) && NodeOk(s, x);
    if x in OnPath(path, z) {
      LeafOnPath(s, path, z, x);
      var j :| 0 <= j < |path| && path[j].pid == x && StepOk(s, path, z, j);
      var i := if path[j].idx == 0 then 1 else 0;
      assert KidOk(s, x, i);
      var y := s.pages[x].kids[i];
      assert Full(s, y);
      var q :| q in s.info[y].keys;
      if q == k {
        SlotUnique(s.pages[x].seps, path[j].idx, i, k);
      }
      assert q in s.info[x].keys - {k};
    }
  }

  // ---------- positions of leaves ----------

  lemma {:induction false} KidRangeLow(s: Snap, x: PageId, j: nat)
    requires NodeOk(s, x) && s.pages[x].Internal? && j < |s.pages[x].kids|
    requires forall y :: y in s.info ==> s.info[y].first <= s.info[y].end
    ensures KidOk(s, x, j) && s.info[x].first <= s.info[s.pages[x].kids[j]].first
    decreases j
  {
    assert KidOk(s, x, j);
    if j > 0 {
      KidRangeLow(s, x, j - 1);
      assert KidOk(s, x, j - 1);
    }
  }

  lemma {:induction false} KidRangeHigh(s: Snap, x: PageId, j: nat)
    requires NodeOk(s, x) && s.pages[x].Internal? && j < |s.pages[x].kids|
    requires forall y :: y in s.info ==> s.info[y].first <= s.info[y].end
    ensures KidOk(s, x, j) && s.info[s.pages[x].kids[j]].end <= s.info[x].end
    decreases |s.pages[x].kids| - j
  {
    assert KidOk(s, x, j);
    if j + 1 < |s.pages[x].kids| {
      KidRangeHigh(s, x, j + 1);
      assert KidOk(s, x, j + 1);
    }
  }

  lemma Ranges(s: Snap, weak: set<PageId>)
    requires Inv(s, weak)
    ensures forall y :: y in s.info ==> s.info[y].first <= s.info[y].end
  {
    forall y | y in s.info
      ensures s.info[y].first <= s.info[y].end
    {
      assert NodeOk(s, y);
    }
  }

  /** The child whose leaves include position n. */
  lemma {:induction false} KidAt(s: Snap, x: PageId, n: nat, from: nat) returns (i: nat)
    requires NodeOk(s, x) && s.pages[x].Internal? && from < |s.pages[x].kids|
    requires KidOk(s, x, from) && s.info[s.pages[x].kids[from]].first <= n < s.info[x].end
    ensures i < |s.pages[x].kids| && KidOk(s, x, i)
    ensures s.info[s.pages[x].kids[i]].first <= n < s.info[s.pages[x].kids[i]].end
    decreases |s.pages[x].kids| - from
  {
    if n < s.info[s.pages[x].kids[from]].end {
      i := from;
    } else {
      assert KidOk(s, x, from + 1);
      i := KidAt(s, x, n, from + 1);
    }
  }

  /** A leaf whose position lies in the range of a page holds only keys of that page. */
  lemma {:induction false} SubKeys(s: Snap, weak: set<PageId>, x: PageId, n: nat)
    requires Inv(s, weak) && x in s.info && s.info[x].first <= n < s.info[x].end
    ensures n < |s.leaves| && s.leaves[n] in s.info && s.info[s.leaves[n]].keys <= s.info[x].keys
    decreases s.info[x].height
  {
    assert NodeOk(s, x);
    if s.pages[x].Internal? {
      assert KidOk(s, x, 0);
      var i := KidAt(s, x, n, 0);
      SubKeys(s, weak, s.pages[x].kids[i], n);
    }
  }

  /** A leaf holding a key is the leaf that the search for that key leads to. */
  lemma LeavesOfKey(s: Snap, weak: set<PageId>, path: seq<Step>, z: PageId, k: Value, x: PageId)
    requires Inv(s, weak) && PathOk(s, path, z) && Follows(s, path, z, k)
    requires z in s.pages && s.pages[z].Leaf?
    requires x in s.info && x in s.pages && s.pages[x].Leaf? && k in s.info[x].keys
    ensures x == z
  {
    assert NodeOk(s, x) && NodeOk(s, z);
    LeafUnderPath(s, weak, path, z, k, x, |path|);
  }

  lemma {:induction false} LeafUnderPath(s: Snap, weak: set<PageId>, path: seq<Step>, z: PageId, k: Value,
                                         x: PageId, j: nat)
    requires Inv(s, weak) && PathOk(s, path, z) && Follows(s, path, z, k)
    requires x in s.info && x in s.pages && s.pages[x].Leaf? && k in s.info[x].keys
    requires j <= |path|
    ensures var w := Target(path, z, j); w in s.info && s.info[w].first <= s.info[x].first < s.info[w].end
    decreases j
  {
    assert NodeOk(s, x);
    if j > 0 {
      LeafUnderPath(s, weak, path, z, k, x, j - 1);
      var w := path[j - 1].pid;
      assert StepOk(s, path, z, j - 1);
      assert NodeOk(s, w);
      assert KidOk(s, w, 0);
      var i := KidAt(s, w, s.info[x].first, 0);
      SubKeys(s, weak, s.pages[w].kids[i], s.info[x].first);
      SlotUnique(s.pages[w].seps, path[j - 1].idx, i, k);
    }
  }

  // ---------- changing a separator ----------

  ghost function SepChanged(s: Snap, w: PageId, i: nat, k: Value): Snap
    requires w in s.pages && s.pages[w].Internal? && i < |s.pages[w].seps|
  {
    s.(pages := s.pages[w := s.pages[w].(seps := s.pages[w].seps[i := k])])
  }

  /** A separator may move up to any lower bound of the keys to its right. */
  lemma SetSep(s: Snap, weak: set<PageId>, w: PageId, i: nat, k: Value)
    requires Inv(s, weak) && w in s.info && w in s.pages && s.pages[w].Internal? && i < |s.pages[w].seps|
    requires i + 1 < |s.pages[w].kids| && s.pages[w].kids[i + 1] in s.info
    requires forall q :: q in s.info[s.pages[w].kids[i + 1]].keys ==> Rank(k) <= Rank(q)
    requires Rank(s.pages[w].seps[i]) <= Rank(k)
    requires i + 1 < |s.pages[w].seps| ==> Rank(k) < Rank(s.pages[w].seps[i + 1])
    ensures Inv(SepChanged(s, w, i, k), weak)
  {
    var s' := SepChanged(s, w, i, k);
    forall x | x in s'.info
      ensures NodeOk(s', x)
    {
      assert NodeOk(s, x);
      if x == w {
        SetSepAscending(s.pages[w].seps, i, k);
        forall j: nat | j < |s.pages[w].kids|
          ensures KidOk(s', w, j)
        {
          assert KidOk(s, w, j);
          assert KidOk(s, w, i + 1);
          forall q | q in s.info[w].keys
            ensures InSlot(s'.pages[w].seps, j, q) <==> InSlot(s.pages[w].seps, j, q)
          {
            SetSepSlot(s.pages[w].seps, i, k, j, q);
          }
        }
      } else if s.pages[x].Internal? {
        forall j: nat | j < |s.pages[x].kids|
          ensures KidOk(s', x, j)
        {
          assert KidOk(s, x, j);
        }
      }
    }
    forall x | x in s'.info && x !in weak
      ensures Full(s', x)
    {
      assert Full(s, x);
    }
    forall x | x in s'.info && x != s'.root
      ensures UpOk(s', x)
    {
      assert UpOk(s, x);
    }
  }

  lemma SetSepAscending(seps: seq<Value>, i: nat, k: Value)
    requires Ascending(seps) && i < |seps|
    requires Rank(seps[i]) <= Rank(k)
    requires i + 1 < |seps| ==> Rank(k) < Rank(seps[i + 1])
    ensures Ascending(seps[i := k])
  {
    var seps' := seps[i := k];
    forall a, b | 0 <= a < b < |seps'|
      ensures Rank(seps'[a]) < Rank(seps'[b])
    {
      if a == i && i + 1 < b {
        assert Rank(seps[i + 1]) < Rank(seps[b]);
      }
    }
  }

  lemma SetSepSlot(seps: seq<Value>, i: nat, k: Value, j: nat, q: Value)
    requires Ascending(seps) && i < |seps| && j <= |seps|
    requires Rank(seps[i]) <= Rank(k)
    requires InSlot(seps, i + 1, q) ==> Rank(k) <= Rank(q)
    requires i + 1 < |seps| ==> Rank(k) < Rank(seps[i + 1])
    ensures InSlot(seps[i := k], j, q) <==> InSlot(seps, j, q)
  {
  }
}
