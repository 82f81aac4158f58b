/** Splitting and merging index pages, and growing and shrinking the tree at the root.

    Each rearrangement is a relation between the index before and after it.
 */
module IndexSplits {
  import opened Sequences
  import opened Values
  import opened IndexTree

  // ---------- sequences of entries and separators ----------

  lemma CutEntries(es: seq<Entry>, cut: nat)
    requires AscendingEntries(es) && 0 < cut < |es|
    ensures AscendingEntries(es[..cut]) && AscendingEntries(es[cut..])
    ensures forall k :: k in KeySet(es[..cut]) <==> k in KeySet(es) && Rank(k) < Rank(es[cut].key)
    ensures forall k :: k in KeySet(es[cut..]) <==> k in KeySet(es) && Rank(es[cut].key) <= Rank(k)
  {
    forall k | k in KeySet(es)
      ensures Rank(k) < Rank(es[cut].key) ==> k in KeySet(es[..cut])
      ensures Rank(es[cut].key) <= Rank(k) ==> k in KeySet(es[cut..])
    {
      var j :| 0 <= j < |es| && es[j].key == k;
      if j < cut {
        assert es[..cut][j].key == k;
      } else {
        assert es[cut..][j - cut].key == k;
      }
    }
    forall k | k in KeySet(es[..cut])
      ensures k in KeySet(es) && Rank(k) < Rank(es[cut].key)
    {
      var j :| 0 <= j < cut && es[..cut][j].key == k;
      assert es[j].key == k;
    }
    forall k | k in KeySet(es[cut..])
      ensures k in KeySet(es) && Rank(es[cut].key) <= Rank(k)
    {
      var j :| 0 <= j < |es| - cut && es[cut..][j].key == k;
      assert es[cut + j].key == k;
    }
  }

  lemma InsertSep(seps: seq<Value>, i: nat, k: Value)
    requires Ascending(seps) && i <= |seps|
    requires i > 0 ==> Rank(seps[i - 1]) < Rank(k)
    requires i < |seps| ==> Rank(k) < Rank(seps[i])
    ensures Ascending(InsertAt(seps, i, k))
  {
    var seps' := InsertAt(seps, i, k);
    forall a, b | 0 <= a < b < |seps'|
      ensures Rank(seps'[a]) < Rank(seps'[b])
    {
      if a == i && i + 1 < b { assert Rank(seps[i]) < Rank(seps[b - 1]); }
      if b == i && a + 1 < i { assert Rank(seps[a]) < Rank(seps[i - 1]); }
    }
  }

  /** Slots of the parent after separator k was inserted at i. */
  lemma InsertSlot(seps: seq<Value>, i: nat, k: Value, j: nat, q: Value)
    requires Ascending(seps) && i <= |seps| && j <= |seps| + 1
    requires i > 0 ==> Rank(seps[i - 1]) < Rank(k)
    requires i < |seps| ==> Rank(k) < Rank(seps[i])
    ensures InSlot(InsertAt(seps, i, k), j, q) <==>
              if j < i then InSlot(seps, j, q)
              else if j == i then InSlot(seps, i, q) && Rank(q) < Rank(k)
              else if j == i + 1 then InSlot(seps, i, q) && Rank(k) <= Rank(q)
              else InSlot(seps, j - 1, q)
  {
  }

  lemma JoinEntries(x: seq<Entry>, y: seq<Entry>, k: Value)
    requires AscendingEntries(x) && AscendingEntries(y)
    requires forall q :: q in KeySet(x) ==> Rank(q) < Rank(k)
    requires forall q :: q in KeySet(y) ==> Rank(k) <= Rank(q)
    ensures AscendingEntries(x + y)
    ensures KeySet(x + y) == KeySet(x) + KeySet(y)
  {
    forall i, j | 0 <= i < j < |x + y|
      ensures Rank((x + y)[i].key) < Rank((x + y)[j].key)
    {
      if i < |x| <= j {
        assert x[i].key in KeySet(x) && y[j - |x|].key in KeySet(y);
      }
    }
    forall q | q in KeySet(x) + KeySet(y)
      ensures q in KeySet(x + y)
    {
      if q in KeySet(x) {
        var i :| 0 <= i < |x| && x[i].key == q;
        assert (x + y)[i].key == q;
      } else {
        var i :| 0 <= i < |y| && y[i].key == q;
        assert (x + y)[|x| + i].key == q;
      }
    }
  }

  lemma RemoveSlot(seps: seq<Value>, i: nat, j: nat, q: Value)
    requires Ascending(seps) && i < |seps| && j < |seps|
    ensures InSlot(RemoveAt(seps, i), j, q) <==>
              if j < i then InSlot(seps, j, q)
              else if j == i then InSlot(seps, i, q) || InSlot(seps, i + 1, q)
              else InSlot(seps, j + 1, q)
  {
  }

  // ---------- common ground ----------

  ghost predicate SameTop(s: Snap, s': Snap) {
    s'.degree == s.degree && s'.root == s.root && s'.height == s.height && s'.contents == s.contents
  }

  /** Page w is an internal node of the tree and its child i is in the tree. */
  ghost predicate HasKid(s: Snap, w: PageId, i: nat) {
    && w in s.info
    && w in s.pages
    && s.pages[w].Internal?
    && i < |s.pages[w].kids|
    && |s.pages[w].kids| == |s.pages[w].seps| + 1
    && s.pages[w].kids[i] in s.info
    && s.pages[w].kids[i] in s.pages
  }

  ghost predicate HasLeaf(s: Snap, w: PageId, i: nat) {
    HasKid(s, w, i) && s.pages[s.pages[w].kids[i]].Leaf?
  }

  /** The chain clause of the invariant. */
  ghost predicate LeavesOk(s: Snap) {
    forall n :: 0 <= n < |s.leaves| ==>
      s.leaves[n] in s.info && s.info[s.leaves[n]].first == n && s.info[s.leaves[n]].height == 1
  }

  ghost predicate AllFull(s: Snap, weak: set<PageId>) {
    forall x {:trigger Full(s, x)} :: x in s.info && x !in weak ==> Full(s, x)
  }

  ghost predicate AllUp(s: Snap) {
    forall x {:trigger UpOk(s, x)} :: x in s.info && x != s.root ==> UpOk(s, x)
  }

  lemma InsertMember<T>(s: seq<T>, i: nat, v: T, x: T)
    requires i <= |s| && (x in s || x == v)
    ensures x in InsertAt(s, i, v)
  {
    var r := InsertAt(s, i, v);
    if x == v {
      assert r[i] == x;
    } else {
      var j :| 0 <= j < |s| && s[j] == x;
      assert r[if j < i then j else j + 1] == x;
    }
  }

  lemma RemoveMember<T>(s: seq<T>, i: nat, x: T)
    requires i < |s| && x in s && x != s[i]
    ensures x in RemoveAt(s, i)
  {
    var j :| 0 <= j < |s| && s[j] == x;
    assert RemoveAt(s, i)[if j < i then j else j - 1] == x;
  }

  // ---------- splitting a leaf ----------

  ghost function Later(n: nat, c: nat): nat {
    if n <= c then n else n + 1
  }

  /** From s to s', leaf i below w keeps its first `cut` entries, and the rest moves to page r,
      which becomes its right sibling. */
  ghost predicate LeafSplit(s: Snap, s': Snap, w: PageId, i: nat, cut: nat, r: PageId) {
    && HasLeaf(s, w, i)
    && r !in s.info
    && SameTop(s, s')
    && var z := s.pages[w].kids[i];
       var c := s.info[z].first;
       var es := s.pages[z].entries;
       && 0 < cut < |es|
       && c < |s.leaves|
       && s'.leaves == InsertAt(s.leaves, c + 1, r)
       && s'.pages == s.pages[z := Leaf(es[..cut], At(r), false)]
                     [r := Leaf(es[cut..], s.pages[z].next, false)]
                     [w := Internal(InsertAt(s.pages[w].seps, i, es[cut].key), InsertAt(s.pages[w].kids, i + 1, r),
                         s.pages[w].isRoot)]
       && (forall x :: x in s'.info <==> x in s.info || x == r)
       && s'.info[z] == Info(1, KeySet(es[..cut]), w, c, c + 1)
       && s'.info[r] == Info(1, KeySet(es[cut..]), w, c + 1, c + 2)
       && (forall x :: x in s.info && x != z ==>
             s'.info[x] == s.info[x].(first := Later(s.info[x].first, c), end := Later(s.info[x].end, c)))
  }

  ghost function AfterLeafSplit(s: Snap, w: PageId, i: nat, cut: nat, r: PageId): (s': Snap)
    requires HasLeaf(s, w, i) && r !in s.info
    requires 0 < cut < |s.pages[s.pages[w].kids[i]].entries|
    requires s.info[s.pages[w].kids[i]].first < |s.leaves|
    ensures LeafSplit(s, s', w, i, cut, r)
  {
    var z := s.pages[w].kids[i];
    var c := s.info[z].first;
    var es := s.pages[z].entries;
    s.(pages := s.pages[z := Leaf(es[..cut], At(r), false)]
               [r := Leaf(es[cut..], s.pages[z].next, false)]
               [w := Internal(InsertAt(s.pages[w].seps, i, es[cut].key), InsertAt(s.pages[w].kids, i + 1, r),
                   s.pages[w].isRoot)],
       info := (map x | x in s.info :: s.info[x].(first := Later(s.info[x].first, c), end := Later(s.info[x].end, c)))
            [z := Info(1, KeySet(es[..cut]), w, c, c + 1)]
            [r := Info(1, KeySet(es[cut..]), w, c + 1, c + 2)],
       leaves := InsertAt(s.leaves, c + 1, r))
  }

  lemma SplitLeafKeeps(s: Snap, s': Snap, weak: set<PageId>, w: PageId, i: nat, cut: nat, r: PageId)
    requires Inv(s, weak) && LeafSplit(s, s', w, i, cut, r)
    ensures Inv(s', weak + {w, r, s.pages[w].kids[i]})
  {
    var z := s.pages[w].kids[i];
    assert NodeOk(s, w) && NodeOk(s, z) && KidOk(s, w, i);
    forall x | x in s'.info
      ensures NodeOk(s', x)
    {
      if x == w {
        SplitLeafParent(s, s', weak, w, i, cut, r);
      } else if x == z || x == r {
        CutEntries(s.pages[z].entries, cut);
      } else {
        assert NodeOk(s, x);
        if s.pages[x].Leaf? {
          SplitLeafOther(s, s', w, i, cut, r, x);
        } else {
          SplitLeafAbove(s, s', w, i, cut, r, x);
        }
      }
    }
    SplitLeafRest(s, s', weak, w, i, cut, r);
    SplitLeafUps(s, s', weak, w, i, cut, r);
  }

  lemma SplitLeafUps(s: Snap, s': Snap, weak: set<PageId>, w: PageId, i: nat, cut: nat, r: PageId)
    requires Inv(s, weak) && LeafSplit(s, s', w, i, cut, r)
    ensures AllUp(s')
  {
    forall x | x in s'.info && x != s'.root
      ensures UpOk(s', x)
    {
      assert NodeOk(s, w) && KidOk(s, w, i);
      if x == r {
        InsertMember(s.pages[w].kids, i + 1, r, x);
      } else {
        assert UpOk(s, x);
        if s.info[x].parent == w { InsertMember(s.pages[w].kids, i + 1, r, x); }
      }
    }
  }

  lemma SplitLeafRest(s: Snap, s': Snap, weak: set<PageId>, w: PageId, i: nat, cut: nat, r: PageId)
    requires Inv(s, weak) && LeafSplit(s, s', w, i, cut, r)
    ensures RootOk(s') && LeavesOk(s') && AllFull(s', weak + {w, r, s.pages[w].kids[i]})
  {
    var z := s.pages[w].kids[i];
    assert NodeOk(s, w) && NodeOk(s, z) && KidOk(s, w, i);
    var c := s.info[z].first;
    forall x | x in s'.info && x !in weak + {w, r, z}
      ensures Full(s', x)
    {
      assert Full(s, x);
    }
    forall n | 0 <= n < |s'.leaves|
      ensures s'.leaves[n] in s'.info && s'.info[s'.leaves[n]].first == n && s'.info[s'.leaves[n]].height == 1
    {
      if n <= c {
        assert s'.leaves[n] == s.leaves[n];
      } else if n > c + 1 {
        assert s'.leaves[n] == s.leaves[n - 1];
      }
    }
  }

  lemma SplitLeaf(s: Snap, weak: set<PageId>, w: PageId, i: nat, cut: nat, r: PageId) returns (s': Snap)
    requires Inv(s, weak) && HasLeaf(s, w, i) && r !in s.info
    requires 0 < cut < |s.pages[s.pages[w].kids[i]].entries|
    ensures LeafSplit(s, s', w, i, cut, r)
    ensures Inv(s', weak + {w, r, s.pages[w].kids[i]})
  {
    assert NodeOk(s, s.pages[w].kids[i]);
    s' := AfterLeafSplit(s, w, i, cut, r);
    SplitLeafKeeps(s, s', weak, w, i, cut, r);
  }

  /** The new separator lies strictly between its neighbours. */
  lemma LeafSepBetween(s: Snap, w: PageId, i: nat, cut: nat)
    requires HasLeaf(s, w, i) && NodeOk(s, w) && NodeOk(s, s.pages[w].kids[i])
    requires 0 < cut < |s.pages[s.pages[w].kids[i]].entries|
    ensures var k := s.pages[s.pages[w].kids[i]].entries[cut].key;
            && (i > 0 ==> Rank(s.pages[w].seps[i - 1]) < Rank(k))
            && (i < |s.pages[w].seps| ==> Rank(k) < Rank(s.pages[w].seps[i]))
  {
    var es := s.pages[s.pages[w].kids[i]].entries;
    assert KidOk(s, w, i);
    assert es[0].key in KeySet(es) && es[cut].key in KeySet(es);
    assert InSlot(s.pages[w].seps, i, es[0].key) && InSlot(s.pages[w].seps, i, es[cut].key);
  }

  lemma SplitLeafParent(s: Snap, s': Snap, weak: set<PageId>, w: PageId, i: nat, cut: nat, r: PageId)
    requires Inv(s, weak) && LeafSplit(s, s', w, i, cut, r)
    ensures NodeOk(s', w)
  {
    var z := s.pages[w].kids[i];
    assert NodeOk(s, w) && NodeOk(s, z);
    LeafSepBetween(s, w, i, cut);
    InsertSep(s.pages[w].seps, i, s.pages[z].entries[cut].key);
    forall j: nat | j < |s.pages[w].kids|
      ensures s.pages[w].kids[j] != r
    {
      assert KidOk(s, w, j);
    }
    forall j: nat | j < |s'.pages[w].kids|
      ensures KidOk(s', w, j)
    {
      if j <= i {
        SplitLeafPlaceLeft(s, s', w, i, cut, r, j);
      } else {
        SplitLeafPlaceRight(s, s', w, i, cut, r, j);
      }
      SplitLeafKeys(s, s', w, i, cut, r, j);
    }
  }

  lemma SplitLeafPlaceLeft(s: Snap, s': Snap, w: PageId, i: nat, cut: nat, r: PageId, j: nat)
    requires LeafSplit(s, s', w, i, cut, r)
    requires NodeOk(s, w) && NodeOk(s, s.pages[w].kids[i])
    requires j <= i
    ensures KidPlace(s', w, j)
  {
    assert KidOk(s, w, i) && KidOk(s, w, j);
    if j < i { assert KidOk(s, w, j + 1); }
  }

  lemma SplitLeafPlaceRight(s: Snap, s': Snap, w: PageId, i: nat, cut: nat, r: PageId, j: nat)
    requires LeafSplit(s, s', w, i, cut, r)
    requires NodeOk(s, w) && NodeOk(s, s.pages[w].kids[i])
    requires i < j <= |s.pages[w].kids|
    ensures KidPlace(s', w, j)
  {
    assert KidOk(s, w, i) && KidOk(s, w, j - 1);
    if j < |s.pages[w].kids| { assert KidOk(s, w, j); }
  }

  lemma SplitLeafKeys(s: Snap, s': Snap, w: PageId, i: nat, cut: nat, r: PageId, j: nat)
    requires LeafSplit(s, s', w, i, cut, r)
    requires NodeOk(s, w) && NodeOk(s, s.pages[w].kids[i])
    requires j <= |s.pages[w].kids|
    requires KidPlace(s', w, j)
    ensures KidKeys(s', w, j)
  {
    var z := s.pages[w].kids[i];
    var k := s.pages[z].entries[cut].key;
    assert KidOk(s, w, i);
    LeafSepBetween(s, w, i, cut);
    var y := s'.pages[w].kids[j];
    if i <= j <= i + 1 {
      CutEntries(s.pages[z].entries, cut);
    } else {
      var j' := if j < i then j else j - 1;
      assert KidOk(s, w, j') && s.pages[w].kids[j'] == y;
    }
    forall q
      ensures q in s'.info[y].keys <==> q in s'.info[w].keys && InSlot(s'.pages[w].seps, j, q)
    {
      InsertSlot(s.pages[w].seps, i, k, j, q);
    }
  }

  lemma SplitLeafOther(s: Snap, s': Snap, w: PageId, i: nat, cut: nat, r: PageId, x: PageId)
    requires LeafSplit(s, s', w, i, cut, r)
    requires NodeOk(s, w) && NodeOk(s, s.pages[w].kids[i])
    requires x != w && x != r && x != s.pages[w].kids[i] && NodeOk(s, x) && s.pages[x].Leaf?
    ensures NodeOk(s', x)
  {
    assert KidOk(s, w, i);
  }

  lemma SplitLeafAbove(s: Snap, s': Snap, w: PageId, i: nat, cut: nat, r: PageId, x: PageId)
    requires LeafSplit(s, s', w, i, cut, r)
    requires NodeOk(s, w) && NodeOk(s, s.pages[w].kids[i])
    requires x != w && NodeOk(s, x) && s.pages[x].Internal?
    ensures NodeOk(s', x)
  {
    assert KidOk(s, w, i);
    forall j: nat | j < |s.pages[x].kids|
      ensures KidOk(s', x, j)
    {
      assert KidOk(s, x, j);
      if j + 1 < |s.pages[x].kids| { assert KidOk(s, x, j + 1); }
    }
  }

  // ---------- merging two leaves ----------

  ghost function Earlier(n: nat, c: nat): nat {
    if n <= c + 1 then n else n - 1
  }

  /** From s to s', leaf i below w takes over the entries and the successor of leaf i+1, which is
      dropped from the tree. */
  ghost predicate LeafMerge(s: Snap, s': Snap, w: PageId, i: nat) {
    && HasLeaf(s, w, i)
    && HasLeaf(s, w, i + 1)
    && SameTop(s, s')
    && var a, b := s.pages[w].kids[i], s.pages[w].kids[i + 1];
       var c := s.info[a].first;
       && c + 1 < |s.leaves|
       && s'.leaves == RemoveAt(s.leaves, c + 1)
       && s'.pages == s.pages[a := Leaf(s.pages[a].entries + s.pages[b].entries, s.pages[b].next, false)]
                     [w := Internal(RemoveAt(s.pages[w].seps, i), RemoveAt(s.pages[w].kids, i + 1), s.pages[w].isRoot)]
       && (forall x :: x in s'.info <==> x in s.info && x != b)
       && a != b
       && s'.info[a] == Info(1, s.info[a].keys + s.info[b].keys, w, c, c + 1)
       && (forall x :: x in s.info && x != a && x != b ==>
             s'.info[x] == s.info[x].(first := Earlier(s.info[x].first, c), end := Earlier(s.info[x].end, c)))
  }

  ghost function AfterLeafMerge(s: Snap, w: PageId, i: nat): (s': Snap)
    requires HasLeaf(s, w, i) && HasLeaf(s, w, i + 1)
    requires s.pages[w].kids[i] != s.pages[w].kids[i + 1]
    requires s.info[s.pages[w].kids[i]].first + 1 < |s.leaves|
    ensures LeafMerge(s, s', w, i)
  {
    var a, b := s.pages[w].kids[i], s.pages[w].kids[i + 1];
    var c := s.info[a].first;
    s.(pages := s.pages[a := Leaf(s.pages[a].entries + s.pages[b].entries, s.pages[b].next, false)]
               [w := Internal(RemoveAt(s.pages[w].seps, i), RemoveAt(s.pages[w].kids, i + 1), s.pages[w].isRoot)],
       info := (map x | x in s.info && x != b :: s.info[x].(first := Earlier(s.info[x].first, c),
           end := Earlier(s.info[x].end, c)))
            [a := Info(1, s.info[a].keys + s.info[b].keys, w, c, c + 1)],
       leaves := RemoveAt(s.leaves, c + 1))
  }

  /** Two neighbouring leaf children are neighbours in the leaf chain. */
  lemma LeafNeighbours(s: Snap, weak: set<PageId>, w: PageId, i: nat)
    requires Inv(s, weak) && HasLeaf(s, w, i) && HasLeaf(s, w, i + 1)
    ensures var a, b := s.pages[w].kids[i], s.pages[w].kids[i + 1];
            && s.info[a].first + 1 == s.info[b].first < |s.leaves|
            && s.leaves[s.info[a].first] == a && s.leaves[s.info[b].first] == b
            && s.pages[a].next == At(b) && a != b
  {
    assert NodeOk(s, w) && KidOk(s, w, i) && KidOk(s, w, i + 1);
    assert NodeOk(s, s.pages[w].kids[i]) && NodeOk(s, s.pages[w].kids[i + 1]);
  }

  lemma MergeLeafKeeps(s: Snap, s': Snap, weak: set<PageId>, w: PageId, i: nat)
    requires Inv(s, weak) && LeafMerge(s, s', w, i)
    ensures Inv(s', weak + {w, s.pages[w].kids[i]})
  {
    var a, b := s.pages[w].kids[i], s.pages[w].kids[i + 1];
    LeafNeighbours(s, weak, w, i);
    assert NodeOk(s, w) && NodeOk(s, a) && NodeOk(s, b) && KidOk(s, w, i) && KidOk(s, w, i + 1);
    forall x | x in s'.info
      ensures NodeOk(s', x)
    {
      if x == w {
        MergeLeafParent(s, s', w, i);
      } else if x == a {
        JoinEntries(s.pages[a].entries, s.pages[b].entries, s.pages[w].seps[i]);
      } else {
        assert NodeOk(s, x);
        if s.pages[x].Leaf? {
          MergeLeafOther(s, s', w, i, x);
        } else {
          MergeLeafAbove(s, s', w, i, x);
        }
      }
    }
    MergeLeafRest(s, s', weak, w, i);
    MergeLeafUps(s, s', weak, w, i);
  }

  lemma MergeLeaf(s: Snap, weak: set<PageId>, w: PageId, i: nat) returns (s': Snap)
    requires Inv(s, weak) && HasLeaf(s, w, i) && HasLeaf(s, w, i + 1)
    ensures LeafMerge(s, s', w, i)
    ensures Inv(s', weak + {w, s.pages[w].kids[i]})
  {
    LeafNeighbours(s, weak, w, i);
    s' := AfterLeafMerge(s, w, i);
    MergeLeafKeeps(s, s', weak, w, i);
  }

  lemma MergeLeafUps(s: Snap, s': Snap, weak: set<PageId>, w: PageId, i: nat)
    requires Inv(s, weak) && LeafMerge(s, s', w, i)
    ensures AllUp(s')
  {
    forall x | x in s'.info && x != s'.root
      ensures UpOk(s', x)
    {
      assert NodeOk(s, w) && KidOk(s, w, i) && KidOk(s, w, i + 1);
      assert UpOk(s, x);
      if s.info[x].parent == w { RemoveMember(s.pages[w].kids, i + 1, x); }
    }
  }

  lemma MergeLeafRest(s: Snap, s': Snap, weak: set<PageId>, w: PageId, i: nat)
    requires Inv(s, weak) && LeafMerge(s, s', w, i)
    ensures RootOk(s') && LeavesOk(s') && AllFull(s', weak + {w, s.pages[w].kids[i]})
  {
    var a, b := s.pages[w].kids[i], s.pages[w].kids[i + 1];
    LeafNeighbours(s, weak, w, i);
    assert NodeOk(s, w) && NodeOk(s, a) && NodeOk(s, b) && KidOk(s, w, i) && KidOk(s, w, i + 1);
    var c := s.info[a].first;
    forall x | x in s'.info && x !in weak + {w, a}
      ensures Full(s', x)
    {
      assert Full(s, x);
    }
    forall n | 0 <= n < |s'.leaves|
      ensures s'.leaves[n] in s'.info && s'.info[s'.leaves[n]].first == n && s'.info[s'.leaves[n]].height == 1
    {
      if n <= c {
        assert s'.leaves[n] == s.leaves[n];
      } else {
        assert s'.leaves[n] == s.leaves[n + 1];
      }
    }
  }

  lemma MergeLeafParent(s: Snap, s': Snap, w: PageId, i: nat)
    requires LeafMerge(s, s', w, i)
    requires NodeOk(s, w) && NodeOk(s, s.pages[w].kids[i]) && NodeOk(s, s.pages[w].kids[i + 1])
    ensures NodeOk(s', w)
  {
    assert KidOk(s, w, i) && KidOk(s, w, i + 1);
    forall j: nat | j < |s'.pages[w].kids|
      ensures KidOk(s', w, j)
    {
      MergeLeafPlace(s, s', w, i, j);
      MergeLeafKeys(s, s', w, i, j);
    }
  }

  lemma MergeLeafPlace(s: Snap, s': Snap, w: PageId, i: nat, j: nat)
    requires LeafMerge(s, s', w, i)
    requires NodeOk(s, w) && NodeOk(s, s.pages[w].kids[i]) && NodeOk(s, s.pages[w].kids[i + 1])
    requires j + 1 < |s.pages[w].kids|
    ensures KidPlace(s', w, j)
  {
    assert KidOk(s, w, i) && KidOk(s, w, i + 1);
    var j' := if j <= i then j else j + 1;
    assert KidOk(s, w, j');
    if j' + 1 < |s.pages[w].kids| { assert KidOk(s, w, j' + 1); }
    if i + 2 < |s.pages[w].kids| { assert KidOk(s, w, i + 2); }
  }

  lemma MergeLeafKeys(s: Snap, s': Snap, w: PageId, i: nat, j: nat)
    requires LeafMerge(s, s', w, i)
    requires NodeOk(s, w)
    requires j + 1 < |s.pages[w].kids|
    requires KidPlace(s', w, j)
    ensures KidKeys(s', w, j)
  {
    assert KidOk(s, w, i) && KidOk(s, w, i + 1);
    var y := s'.pages[w].kids[j];
    var j' := if j <= i then j else j + 1;
    assert KidOk(s, w, j') && s.pages[w].kids[j'] == y;
    forall q
      ensures q in s'.info[y].keys <==> q in s'.info[w].keys && InSlot(s'.pages[w].seps, j, q)
    {
      RemoveSlot(s.pages[w].seps, i, j, q);
    }
  }

  lemma MergeLeafOther(s: Snap, s': Snap, w: PageId, i: nat, x: PageId)
    requires LeafMerge(s, s', w, i)
    requires NodeOk(s, s.pages[w].kids[i]) && NodeOk(s, s.pages[w].kids[i + 1])
    requires s.info[s.pages[w].kids[i]].first + 1 == s.info[s.pages[w].kids[i + 1]].first
    requires x != w && x != s.pages[w].kids[i] && x != s.pages[w].kids[i + 1] && NodeOk(s, x) && s.pages[x].Leaf?
    ensures NodeOk(s', x)
  {
  }

  lemma MergeLeafAbove(s: Snap, s': Snap, w: PageId, i: nat, x: PageId)
    requires LeafMerge(s, s', w, i)
    requires NodeOk(s, w) && NodeOk(s, s.pages[w].kids[i]) && NodeOk(s, s.pages[w].kids[i + 1])
    requires x != w && NodeOk(s, x) && s.pages[x].Internal?
    ensures NodeOk(s', x)
  {
    assert KidOk(s, w, i) && KidOk(s, w, i + 1);
    forall j: nat | j < |s.pages[x].kids|
      ensures KidOk(s', x, j)
    {
      assert KidOk(s, x, j);
      if j + 1 < |s.pages[x].kids| { assert KidOk(s, x, j + 1); }
    }
  }
}
