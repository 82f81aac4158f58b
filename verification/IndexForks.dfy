/** Splitting and merging internal index pages, and growing and shrinking the tree at the root. */
module IndexForks {
  import opened Sequences
  import opened Values
  import opened IndexTree
  import opened IndexSteps
  import opened IndexSplits

  ghost predicate HasFork(s: Snap, w: PageId, i: nat) {
    && HasKid(s, w, i)
    && s.pages[s.pages[w].kids[i]].Internal?
    && |s.pages[s.pages[w].kids[i]].kids| == |s.pages[s.pages[w].kids[i]].seps| + 1
  }

  ghost function KeysBelow(keys: set<Value>, v: Value): set<Value> {
    set k | k in keys && Rank(k) < Rank(v)
  }

  ghost function KeysFrom(keys: set<Value>, v: Value): set<Value> {
    set k | k in keys && Rank(v) <= Rank(k)
  }

  // ---------- splitting an internal page ----------

  /** From s to s', internal child i of w keeps its first `mid` separators, separator `mid` moves
      up into w, and the rest moves to page r, which becomes its right sibling. */
  ghost predicate ForkSplit(s: Snap, s': Snap, w: PageId, i: nat, mid: nat, r: PageId) {
    && HasFork(s, w, i)
    && r !in s.info
    && SameTop(s, s')
    && s'.leaves == s.leaves
    && var z := s.pages[w].kids[i];
       var seps, kids := s.pages[z].seps, s.pages[z].kids;
       && mid < |seps|
       && z != w
       && kids[mid + 1] in s.info
       && s'.pages == s.pages[z := Internal(seps[..mid], kids[..mid + 1], false)]
                     [r := Internal(seps[mid + 1..], kids[mid + 1..], false)]
                     [w := Internal(InsertAt(s.pages[w].seps, i, seps[mid]), InsertAt(s.pages[w].kids, i + 1, r),
                         s.pages[w].isRoot)]
       && (forall x :: x in s'.info <==> x in s.info || x == r)
       && s'.info[z] == Info(s.info[z].height, KeysBelow(s.info[z].keys, seps[mid]), w, s.info[z].first,
          s.info[kids[mid + 1]].first)
       && s'.info[r] == Info(s.info[z].height, KeysFrom(s.info[z].keys, seps[mid]), w, s.info[kids[mid + 1]].first,
          s.info[z].end)
       && (forall x :: x in s.info && x != z ==>
             s'.info[x] == if x in kids[mid + 1..] then s.info[x].(parent := r) else s.info[x])
  }

  ghost function AfterForkSplit(s: Snap, w: PageId, i: nat, mid: nat, r: PageId): (s': Snap)
    requires HasFork(s, w, i) && r !in s.info && s.pages[w].kids[i] != w
    requires mid < |s.pages[s.pages[w].kids[i]].seps| && s.pages[s.pages[w].kids[i]].kids[mid + 1] in s.info
    ensures ForkSplit(s, s', w, i, mid, r)
  {
    var z := s.pages[w].kids[i];
    var seps, kids := s.pages[z].seps, s.pages[z].kids;
    s.(pages := s.pages[z := Internal(seps[..mid], kids[..mid + 1], false)]
               [r := Internal(seps[mid + 1..], kids[mid + 1..], false)]
               [w := Internal(InsertAt(s.pages[w].seps, i, seps[mid]), InsertAt(s.pages[w].kids, i + 1, r),
                   s.pages[w].isRoot)],
       info := (map x | x in s.info :: if x in kids[mid + 1..] then s.info[x].(parent := r) else s.info[x])
            [z := Info(s.info[z].height, KeysBelow(s.info[z].keys, seps[mid]), w, s.info[z].first,
                s.info[kids[mid + 1]].first)]
            [r := Info(s.info[z].height, KeysFrom(s.info[z].keys, seps[mid]), w, s.info[kids[mid + 1]].first,
                s.info[z].end)])
  }

  /** Children have keys, so a separator of a child lies strictly between those of its parent. */
  lemma ForkSepBetween(s: Snap, weak: set<PageId>, w: PageId, i: nat, mid: nat)
    requires Inv(s, weak) && HasFork(s, w, i) && mid < |s.pages[s.pages[w].kids[i]].seps|
    requires forall y :: y in s.pages[s.pages[w].kids[i]].kids ==> y !in weak
    ensures var k := s.pages[s.pages[w].kids[i]].seps[mid];
            && (i > 0 ==> Rank(s.pages[w].seps[i - 1]) < Rank(k))
            && (i < |s.pages[w].seps| ==> Rank(k) < Rank(s.pages[w].seps[i]))
  {
    var z := s.pages[w].kids[i];
    assert NodeOk(s, w) && NodeOk(s, z) && KidOk(s, w, i) && KidOk(s, z, mid) && KidOk(s, z, mid + 1);
    var y, y' := s.pages[z].kids[mid], s.pages[z].kids[mid + 1];
    assert Full(s, y) && Full(s, y');
    var q :| q in s.info[y].keys;
    var q' :| q' in s.info[y'].keys;
    assert InSlot(s.pages[z].seps, mid, q) && InSlot(s.pages[z].seps, mid + 1, q');
    assert InSlot(s.pages[w].seps, i, q) && InSlot(s.pages[w].seps, i, q');
  }

  lemma SplitForkKeeps(s: Snap, s': Snap, weak: set<PageId>, w: PageId, i: nat, mid: nat, r: PageId)
    requires Inv(s, weak) && ForkSplit(s, s', w, i, mid, r)
    requires forall y :: y in s.pages[s.pages[w].kids[i]].kids ==> y !in weak
    ensures Inv(s', weak + {w, r, s.pages[w].kids[i]})
  {
    var z := s.pages[w].kids[i];
    assert NodeOk(s, w) && NodeOk(s, z) && KidOk(s, w, i);
    Ranges(s, weak);
    forall x | x in s'.info
      ensures NodeOk(s', x)
    {
      if x == w {
        ForkSepBetween(s, weak, w, i, mid);
        SplitForkParent(s, s', w, i, mid, r);
      } else if x == z {
        SplitForkLeft(s, s', w, i, mid, r);
      } else if x == r {
        SplitForkRight(s, s', w, i, mid, r);
      } else {
        assert NodeOk(s, x);
        SplitForkOther(s, s', w, i, mid, r, x);
      }
    }
    SplitForkRest(s, s', weak, w, i, mid, r);
    SplitForkUps(s, s', weak, w, i, mid, r);
  }

  lemma SplitFork(s: Snap, weak: set<PageId>, w: PageId, i: nat, mid: nat, r: PageId) returns (s': Snap)
    requires Inv(s, weak) && HasFork(s, w, i) && r !in s.info && mid < |s.pages[s.pages[w].kids[i]].seps|
    requires forall y :: y in s.pages[s.pages[w].kids[i]].kids ==> y !in weak
    ensures ForkSplit(s, s', w, i, mid, r)
    ensures Inv(s', weak + {w, r, s.pages[w].kids[i]})
  {
    var z := s.pages[w].kids[i];
    assert NodeOk(s, w) && NodeOk(s, z) && KidOk(s, w, i) && KidOk(s, z, mid + 1);
    s' := AfterForkSplit(s, w, i, mid, r);
    SplitForkKeeps(s, s', weak, w, i, mid, r);
  }

  lemma SplitForkUps(s: Snap, s': Snap, weak: set<PageId>, w: PageId, i: nat, mid: nat, r: PageId)
    requires Inv(s, weak) && ForkSplit(s, s', w, i, mid, r)
    ensures AllUp(s')
  {
    var z := s.pages[w].kids[i];
    assert NodeOk(s, w) && NodeOk(s, z) && KidOk(s, w, i);
    KidUps(s, z);
    forall x | x in s'.info && x != s'.root
      ensures UpOk(s', x)
    {
      if x == r || x == z {
        InsertMember(s.pages[w].kids, i + 1, r, x);
      } else {
        assert UpOk(s, x);
        if s.info[x].parent == w {
          InsertMember(s.pages[w].kids, i + 1, r, x);
        } else if s.info[x].parent == z {
          assert s.pages[z].kids == s.pages[z].kids[..mid + 1] + s.pages[z].kids[mid + 1..];
        }
      }
    }
  }

  lemma SplitForkRest(s: Snap, s': Snap, weak: set<PageId>, w: PageId, i: nat, mid: nat, r: PageId)
    requires Inv(s, weak) && ForkSplit(s, s', w, i, mid, r)
    ensures RootOk(s') && LeavesOk(s') && AllFull(s', weak + {w, r, s.pages[w].kids[i]})
  {
    var z := s.pages[w].kids[i];
    assert NodeOk(s, w) && NodeOk(s, z) && KidOk(s, w, i);
    forall x | x in s'.info && x !in weak + {w, r, z}
      ensures Full(s', x)
    {
      assert Full(s, x);
    }
  }

  lemma SplitForkParent(s: Snap, s': Snap, w: PageId, i: nat, mid: nat, r: PageId)
    requires ForkSplit(s, s', w, i, mid, r)
    requires NodeOk(s, w) && NodeOk(s, s.pages[w].kids[i])
    requires var k := s.pages[s.pages[w].kids[i]].seps[mid];
             && (i > 0 ==> Rank(s.pages[w].seps[i - 1]) < Rank(k))
             && (i < |s.pages[w].seps| ==> Rank(k) < Rank(s.pages[w].seps[i]))
    ensures NodeOk(s', w)
  {
    var z := s.pages[w].kids[i];
    assert KidOk(s, w, i);
    InsertSep(s.pages[w].seps, i, s.pages[z].seps[mid]);
    forall j: nat | j < |s.pages[w].kids|
      ensures s.pages[w].kids[j] != r
    {
      assert KidOk(s, w, j);
    }
    assert w !in s.pages[z].kids by { KidUps(s, z); }
    assert forall n :: 0 <= n < |s.pages[w].kids| ==> s.pages[w].kids[n] !in s.pages[z].kids by {
      KidUps(s, z);
      KidUps(s, w);
    }
    forall j: nat | j < |s'.pages[w].kids|
      ensures KidOk(s', w, j)
    {
      if j <= i {
        SplitForkPlaceLeft(s, s', w, i, mid, r, j);
      } else {
        SplitForkPlaceRight(s, s', w, i, mid, r, j);
      }
      SplitForkKeys(s, s', w, i, mid, r, j);
    }
  }

  /** Children know their parent. */
  lemma KidUps(s: Snap, x: PageId)
    requires NodeOk(s, x) && s.pages[x].Internal?
    ensures forall y :: y in s.pages[x].kids ==>
              y in s.info && s.info[y].parent == x && s.info[y].height + 1 == s.info[x].height
  {
    forall y | y in s.pages[x].kids
      ensures y in s.info && s.info[y].parent == x && s.info[y].height + 1 == s.info[x].height
    {
      var n: nat :| n < |s.pages[x].kids| && s.pages[x].kids[n] == y;
      assert KidOk(s, x, n);
    }
  }

  lemma SplitForkPlaceLeft(s: Snap, s': Snap, w: PageId, i: nat, mid: nat, r: PageId, j: nat)
    requires ForkSplit(s, s', w, i, mid, r)
    requires NodeOk(s, w) && NodeOk(s, s.pages[w].kids[i])
    requires w !in s.pages[s.pages[w].kids[i]].kids
    requires forall n :: 0 <= n < |s.pages[w].kids| ==> s.pages[w].kids[n] !in s.pages[s.pages[w].kids[i]].kids
    requires j <= i
    ensures KidPlace(s', w, j)
  {
    assert KidOk(s, w, j) && KidOk(s, w, i);
    if j < i { assert KidOk(s, w, j + 1); }
  }

  lemma SplitForkPlaceRight(s: Snap, s': Snap, w: PageId, i: nat, mid: nat, r: PageId, j: nat)
    requires ForkSplit(s, s', w, i, mid, r)
    requires NodeOk(s, w) && NodeOk(s, s.pages[w].kids[i])
    requires w !in s.pages[s.pages[w].kids[i]].kids
    requires forall n :: 0 <= n < |s.pages[w].kids| ==> s.pages[w].kids[n] !in s.pages[s.pages[w].kids[i]].kids
    requires i < j <= |s.pages[w].kids|
    ensures KidPlace(s', w, j)
  {
    assert KidOk(s, w, i) && KidOk(s, w, j - 1);
    if j < |s.pages[w].kids| { assert KidOk(s, w, j); }
  }

  lemma SplitForkKeys(s: Snap, s': Snap, w: PageId, i: nat, mid: nat, r: PageId, j: nat)
    requires ForkSplit(s, s', w, i, mid, r)
    requires NodeOk(s, w) && NodeOk(s, s.pages[w].kids[i])
    requires var k := s.pages[s.pages[w].kids[i]].seps[mid];
             && (i > 0 ==> Rank(s.pages[w].seps[i - 1]) < Rank(k))
             && (i < |s.pages[w].seps| ==> Rank(k) < Rank(s.pages[w].seps[i]))
    requires j <= |s.pages[w].kids|
    requires KidPlace(s', w, j)
    ensures KidKeys(s', w, j)
  {
    var z := s.pages[w].kids[i];
    var k := s.pages[z].seps[mid];
    assert KidOk(s, w, i);
    var y := s'.pages[w].kids[j];
    if j < i || i + 1 < j {
      var j' := if j < i then j else j - 1;
      assert KidOk(s, w, j') && s.pages[w].kids[j'] == y;
    }
    forall q
      ensures q in s'.info[y].keys <==> q in s'.info[w].keys && InSlot(s'.pages[w].seps, j, q)
    {
      InsertSlot(s.pages[w].seps, i, k, j, q);
    }
  }

  lemma SplitForkLeft(s: Snap, s': Snap, w: PageId, i: nat, mid: nat, r: PageId)
    requires ForkSplit(s, s', w, i, mid, r)
    requires NodeOk(s, w) && NodeOk(s, s.pages[w].kids[i])
    requires s.pages[w].kids[i] != s.root
    requires forall y :: y in s.info ==> s.info[y].first <= s.info[y].end
    ensures NodeOk(s', s.pages[w].kids[i])
  {
    var z := s.pages[w].kids[i];
    assert KidOk(s, w, i);
    forall j: nat | j < mid + 1
      ensures KidOk(s', z, j)
    {
      assert KidOk(s, z, j) && KidOk(s, z, j + 1);
      assert s.pages[z].kids[j] !in s.pages[z].kids[mid + 1..];
      if j + 1 < mid + 1 { assert s.pages[z].kids[j + 1] !in s.pages[z].kids[mid + 1..]; }
      forall q
        ensures q in s.info[s.pages[z].kids[j]].keys <==> q in s'.info[z].keys && InSlot(s'.pages[z].seps, j, q)
      {
        PrefixSlot(s.pages[z].seps, mid, j, q);
      }
    }
    KidRangeLow(s, z, mid + 1);
  }

  lemma SplitForkRight(s: Snap, s': Snap, w: PageId, i: nat, mid: nat, r: PageId)
    requires ForkSplit(s, s', w, i, mid, r)
    requires NodeOk(s, w) && NodeOk(s, s.pages[w].kids[i])
    requires s.root in s.info && s.pages[w].kids[i] != s.root
    requires forall y :: y in s.info ==> s.info[y].first <= s.info[y].end
    ensures NodeOk(s', r)
  {
    var z := s.pages[w].kids[i];
    assert KidOk(s, w, i);
    forall j: nat | j < |s'.pages[r].kids|
      ensures KidOk(s', r, j)
    {
      SplitForkRightPlace(s, s', w, i, mid, r, j);
      SplitForkRightKeys(s, s', w, i, mid, r, j);
    }
    assert KidOk(s, z, mid + 1);
    KidRangeHigh(s, z, mid + 1);
  }

  lemma SplitForkRightPlace(s: Snap, s': Snap, w: PageId, i: nat, mid: nat, r: PageId, j: nat)
    requires ForkSplit(s, s', w, i, mid, r)
    requires NodeOk(s, w) && NodeOk(s, s.pages[w].kids[i])
    requires mid + 1 + j < |s.pages[s.pages[w].kids[i]].kids|
    ensures KidPlace(s', r, j)
  {
    var z := s.pages[w].kids[i];
    var n := mid + 1 + j;
    KidUps(s, z);
    assert KidOk(s, w, i) && KidOk(s, z, n);
    assert s'.pages[r].kids[j] == s.pages[z].kids[n];
    if n + 1 < |s.pages[z].kids| {
      assert KidOk(s, z, n + 1);
      assert s'.pages[r].kids[j + 1] == s.pages[z].kids[n + 1];
    }
  }

  lemma SplitForkRightKeys(s: Snap, s': Snap, w: PageId, i: nat, mid: nat, r: PageId, j: nat)
    requires ForkSplit(s, s', w, i, mid, r)
    requires NodeOk(s, w) && NodeOk(s, s.pages[w].kids[i])
    requires mid + 1 + j < |s.pages[s.pages[w].kids[i]].kids|
    requires KidPlace(s', r, j)
    ensures KidKeys(s', r, j)
  {
    var z := s.pages[w].kids[i];
    var n := mid + 1 + j;
    KidUps(s, z);
    assert KidOk(s, w, i) && KidOk(s, z, n);
    var y := s'.pages[r].kids[j];
    assert y == s.pages[z].kids[n];
    forall q
      ensures q in s'.info[y].keys <==> q in s'.info[r].keys && InSlot(s'.pages[r].seps, j, q)
    {
      SuffixSlot(s.pages[z].seps, mid, j, q);
    }
  }

  lemma PrefixSlot(seps: seq<Value>, mid: nat, j: nat, q: Value)
    requires Ascending(seps) && mid < |seps| && j <= mid
    ensures InSlot(seps, j, q) <==> InSlot(seps[..mid], j, q) && Rank(q) < Rank(seps[mid])
  {
  }

  lemma SuffixSlot(seps: seq<Value>, mid: nat, j: nat, q: Value)
    requires Ascending(seps) && mid < |seps| && mid + 1 + j <= |seps|
    ensures InSlot(seps, mid + 1 + j, q) <==> InSlot(seps[mid + 1..], j, q) && Rank(seps[mid]) <= Rank(q)
  {
  }

  lemma SplitForkOther(s: Snap, s': Snap, w: PageId, i: nat, mid: nat, r: PageId, x: PageId)
    requires ForkSplit(s, s', w, i, mid, r)
    requires NodeOk(s, w) && NodeOk(s, s.pages[w].kids[i])
    requires x != w && x != r && x != s.pages[w].kids[i] && NodeOk(s, x)
    ensures NodeOk(s', x)
  {
    var z := s.pages[w].kids[i];
    assert KidOk(s, w, i);
    KidUps(s, z);
    if s.pages[x].Internal? {
      KidUps(s, x);
      forall j: nat | j < |s.pages[x].kids|
        ensures KidOk(s', x, j)
      {
        assert KidOk(s, x, j);
        if j + 1 < |s.pages[x].kids| { assert KidOk(s, x, j + 1); }
      }
    }
  }

  // ---------- merging two internal pages ----------

  /** From s to s', internal child i of w takes over separator i of w and everything in child i+1,
      which is dropped from the tree. */
  ghost predicate ForkMerge(s: Snap, s': Snap, w: PageId, i: nat) {
    && HasFork(s, w, i)
    && HasFork(s, w, i + 1)
    && SameTop(s, s')
    && s'.leaves == s.leaves
    && var a, b := s.pages[w].kids[i], s.pages[w].kids[i + 1];
       && a != b && a != w && b != w
       && s'.pages == s.pages[a := Internal(s.pages[a].seps + [s.pages[w].seps[i]] + s.pages[b].seps,
          s.pages[a].kids + s.pages[b].kids, false)]
                     [w := Internal(RemoveAt(s.pages[w].seps, i), RemoveAt(s.pages[w].kids, i + 1), s.pages[w].isRoot)]
       && (forall x :: x in s'.info <==> x in s.info && x != b)
       && s'.info[a] == Info(s.info[a].height, s.info[a].keys + s.info[b].keys, w, s.info[a].first, s.info[b].end)
       && (forall x :: x in s.info && x != a && x != b ==>
             s'.info[x] == if x in s.pages[b].kids then s.info[x].(parent := a) else s.info[x])
  }

  ghost function AfterForkMerge(s: Snap, w: PageId, i: nat): (s': Snap)
    requires HasFork(s, w, i) && HasFork(s, w, i + 1)
    requires s.pages[w].kids[i] != s.pages[w].kids[i + 1] && s.pages[w].kids[i] != w && s.pages[w].kids[i + 1] != w
    ensures ForkMerge(s, s', w, i)
  {
    var a, b := s.pages[w].kids[i], s.pages[w].kids[i + 1];
    s.(pages := s.pages[a := Internal(s.pages[a].seps + [s.pages[w].seps[i]] + s.pages[b].seps,
        s.pages[a].kids + s.pages[b].kids, false)]
               [w := Internal(RemoveAt(s.pages[w].seps, i), RemoveAt(s.pages[w].kids, i + 1), s.pages[w].isRoot)],
       info := (map x | x in s.info && x != b :: if x in s.pages[b].kids then s.info[x].(parent := a) else s.info[x])
            [a := Info(s.info[a].height, s.info[a].keys + s.info[b].keys, w, s.info[a].first, s.info[b].end)])
  }

  lemma JoinSlot(x: seq<Value>, k: Value, y: seq<Value>, j: nat, q: Value)
    requires Ascending(x + [k] + y) && j <= |x| + 1 + |y|
    ensures InSlot(x + [k] + y, j, q) <==>
              if j <= |x| then InSlot(x, j, q) && Rank(q) < Rank(k)
              else InSlot(y, j - |x| - 1, q) && Rank(k) <= Rank(q)
  {
    var z := x + [k] + y;
    assert z[|x|] == k;
    if j <= |x| {
      if j < |x| { assert z[j] == x[j]; }
      if j > 0 { assert z[j - 1] == x[j - 1]; }
    } else {
      if j < |z| { assert z[j] == y[j - |x| - 1]; }
      if j > |x| + 1 { assert z[j - 1] == y[j - |x| - 2]; }
    }
  }

  lemma JoinSeps(x: seq<Value>, k: Value, y: seq<Value>)
    requires Ascending(x) && Ascending(y)
    requires forall j :: 0 <= j < |x| ==> Rank(x[j]) < Rank(k)
    requires forall j :: 0 <= j < |y| ==> Rank(k) < Rank(y[j])
    ensures Ascending(x + [k] + y)
  {
  }

  lemma MergeForkKeeps(s: Snap, s': Snap, weak: set<PageId>, w: PageId, i: nat)
    requires Inv(s, weak) && ForkMerge(s, s', w, i)
    requires forall y :: y in s.pages[s.pages[w].kids[i]].kids ==> y !in weak
    requires forall y :: y in s.pages[s.pages[w].kids[i + 1]].kids ==> y !in weak
    ensures Inv(s', weak + {w, s.pages[w].kids[i]})
  {
    var a, b := s.pages[w].kids[i], s.pages[w].kids[i + 1];
    assert NodeOk(s, w) && NodeOk(s, a) && NodeOk(s, b) && KidOk(s, w, i) && KidOk(s, w, i + 1);
    Ranges(s, weak);
    forall x | x in s'.info
      ensures NodeOk(s', x)
    {
      if x == w {
        MergeForkParent(s, s', w, i);
      } else if x == a {
        MergeForkSeps(s, weak, w, i);
        MergeForkNode(s, s', w, i);
      } else {
        assert NodeOk(s, x);
        MergeForkOther(s, s', w, i, x);
      }
    }
    MergeForkRest(s, s', weak, w, i);
    MergeForkUps(s, s', weak, w, i);
  }

  lemma MergeFork(s: Snap, weak: set<PageId>, w: PageId, i: nat) returns (s': Snap)
    requires Inv(s, weak) && HasFork(s, w, i) && HasFork(s, w, i + 1)
    requires forall y :: y in s.pages[s.pages[w].kids[i]].kids ==> y !in weak
    requires forall y :: y in s.pages[s.pages[w].kids[i + 1]].kids ==> y !in weak
    ensures ForkMerge(s, s', w, i)
    ensures Inv(s', weak + {w, s.pages[w].kids[i]})
  {
    assert NodeOk(s, w) && KidOk(s, w, i) && KidOk(s, w, i + 1);
    s' := AfterForkMerge(s, w, i);
    MergeForkKeeps(s, s', weak, w, i);
  }

  lemma MergeForkUps(s: Snap, s': Snap, weak: set<PageId>, w: PageId, i: nat)
    requires Inv(s, weak) && ForkMerge(s, s', w, i)
    ensures AllUp(s')
  {
    var a, b := s.pages[w].kids[i], s.pages[w].kids[i + 1];
    assert NodeOk(s, w) && NodeOk(s, a) && NodeOk(s, b) && KidOk(s, w, i) && KidOk(s, w, i + 1);
    KidUps(s, b);
    forall x | x in s'.info && x != s'.root
      ensures UpOk(s', x)
    {
      assert UpOk(s, x);
      if s.info[x].parent == w { RemoveMember(s.pages[w].kids, i + 1, x); }
    }
  }

  lemma MergeForkRest(s: Snap, s': Snap, weak: set<PageId>, w: PageId, i: nat)
    requires Inv(s, weak) && ForkMerge(s, s', w, i)
    ensures RootOk(s') && LeavesOk(s') && AllFull(s', weak + {w, s.pages[w].kids[i]})
  {
    var a, b := s.pages[w].kids[i], s.pages[w].kids[i + 1];
    assert NodeOk(s, w) && NodeOk(s, a) && NodeOk(s, b) && KidOk(s, w, i) && KidOk(s, w, i + 1);
    forall x | x in s'.info && x !in weak + {w, a}
      ensures Full(s', x)
    {
      assert Full(s, x);
    }
  }

  lemma MergeForkSeps(s: Snap, weak: set<PageId>, w: PageId, i: nat)
    requires Inv(s, weak) && HasFork(s, w, i) && HasFork(s, w, i + 1)
    requires forall y :: y in s.pages[s.pages[w].kids[i]].kids ==> y !in weak
    requires forall y :: y in s.pages[s.pages[w].kids[i + 1]].kids ==> y !in weak
    ensures Ascending(s.pages[s.pages[w].kids[i]].seps + [s.pages[w].seps[i]] + s.pages[s.pages[w].kids[i + 1]].seps)
  {
    var a, b := s.pages[w].kids[i], s.pages[w].kids[i + 1];
    assert NodeOk(s, a) && NodeOk(s, b);
    forall j | 0 <= j < |s.pages[a].seps|
      ensures Rank(s.pages[a].seps[j]) < Rank(s.pages[w].seps[i])
    {
      ForkSepBetween(s, weak, w, i, j);
    }
    forall j | 0 <= j < |s.pages[b].seps|
      ensures Rank(s.pages[w].seps[i]) < Rank(s.pages[b].seps[j])
    {
      ForkSepBetween(s, weak, w, i + 1, j);
    }
    JoinSeps(s.pages[a].seps, s.pages[w].seps[i], s.pages[b].seps);
  }

  lemma MergeForkParent(s: Snap, s': Snap, w: PageId, i: nat)
    requires ForkMerge(s, s', w, i)
    requires NodeOk(s, w) && NodeOk(s, s.pages[w].kids[i]) && NodeOk(s, s.pages[w].kids[i + 1])
    ensures NodeOk(s', w)
  {
    var a, b := s.pages[w].kids[i], s.pages[w].kids[i + 1];
    assert KidOk(s, w, i) && KidOk(s, w, i + 1);
    assert w !in s.pages[b].kids by { KidUps(s, b); }
    assert forall n :: 0 <= n < |s.pages[w].kids| ==> s.pages[w].kids[n] !in s.pages[b].kids by {
      KidUps(s, b);
      KidUps(s, w);
    }
    forall j: nat | j < |s'.pages[w].kids|
      ensures KidOk(s', w, j)
    {
      MergeForkPlace(s, s', w, i, j);
      MergeForkKeys(s, s', w, i, j);
    }
  }

  lemma MergeForkPlace(s: Snap, s': Snap, w: PageId, i: nat, j: nat)
    requires ForkMerge(s, s', w, i)
    requires NodeOk(s, w)
    requires w !in s.pages[s.pages[w].kids[i + 1]].kids
    requires forall n :: 0 <= n < |s.pages[w].kids| ==> s.pages[w].kids[n] !in s.pages[s.pages[w].kids[i + 1]].kids
    requires j + 1 < |s.pages[w].kids|
    ensures KidPlace(s', w, j)
  {
    assert KidOk(s, w, i) && KidOk(s, w, i + 1);
    var j' := if j <= i then j else j + 1;
    assert KidOk(s, w, j');
    if j' + 1 < |s.pages[w].kids| { assert KidOk(s, w, j' + 1); }
    if i + 2 < |s.pages[w].kids| { assert KidOk(s, w, i + 2); }
  }

  lemma MergeForkKeys(s: Snap, s': Snap, w: PageId, i: nat, j: nat)
    requires ForkMerge(s, s', w, i)
    requires NodeOk(s, w)
    requires j + 1 < |s.pages[w].kids|
    requires KidPlace(s', w, j)
    ensures KidKeys(s', w, j)
  {
    assert KidOk(s, w, i) && KidOk(s, w, i + 1);
    var y := s'.pages[w].kids[j];
    var j' := if j <= i then j else j + 1;
    assert KidOk(s, w, j') && s.pages[w].kids[j'] == y;
    forall q
      ensures q in s'.info[y].keys <==> q in s'.info[w].keys && InSlot(s'.pages[w].seps, j, q)
    {
      RemoveSlot(s.pages[w].seps, i, j, q);
    }
  }

  lemma MergeForkNode(s: Snap, s': Snap, w: PageId, i: nat)
    requires ForkMerge(s, s', w, i)
    requires NodeOk(s, w) && NodeOk(s, s.pages[w].kids[i]) && NodeOk(s, s.pages[w].kids[i + 1])
    requires s.pages[w].kids[i] != s.root
    requires Ascending(s.pages[s.pages[w].kids[i]].seps + [s.pages[w].seps[i]] + s.pages[s.pages[w].kids[i + 1]].seps)
    ensures NodeOk(s', s.pages[w].kids[i])
  {
    var a, b := s.pages[w].kids[i], s.pages[w].kids[i + 1];
    assert KidOk(s, w, i) && KidOk(s, w, i + 1);
    KidUps(s, a);
    KidUps(s, b);
    forall m, n | 0 <= m < n < |s'.pages[a].kids|
      ensures s'.pages[a].kids[m] != s'.pages[a].kids[n]
    {
      if m < |s.pages[a].kids| <= n {
        assert s'.pages[a].kids[m] in s.pages[a].kids && s'.pages[a].kids[n] in s.pages[b].kids;
      }
    }
    forall j: nat | j < |s'.pages[a].kids|
      ensures KidOk(s', a, j)
    {
      MergeForkNodePlace(s, s', w, i, j);
      MergeForkNodeKeys(s, s', w, i, j);
    }
  }

  lemma MergeForkNodePlace(s: Snap, s': Snap, w: PageId, i: nat, j: nat)
    requires ForkMerge(s, s', w, i)
    requires NodeOk(s, w) && NodeOk(s, s.pages[w].kids[i]) && NodeOk(s, s.pages[w].kids[i + 1])
    requires j < |s.pages[s.pages[w].kids[i]].kids| + |s.pages[s.pages[w].kids[i + 1]].kids|
    ensures KidPlace(s', s.pages[w].kids[i], j)
  {
    var a, b := s.pages[w].kids[i], s.pages[w].kids[i + 1];
    var n := |s.pages[a].kids|;
    assert KidOk(s, w, i) && KidOk(s, w, i + 1);
    KidUps(s, a);
    KidUps(s, b);
    assert KidOk(s, b, 0);
    if j < n {
      assert KidOk(s, a, j);
      if j + 1 < n { assert KidOk(s, a, j + 1); }
    } else {
      assert KidOk(s, b, j - n);
      if j + 1 - n < |s.pages[b].kids| { assert KidOk(s, b, j + 1 - n); }
    }
  }

  lemma MergeForkNodeKeys(s: Snap, s': Snap, w: PageId, i: nat, j: nat)
    requires ForkMerge(s, s', w, i)
    requires NodeOk(s, w) && NodeOk(s, s.pages[w].kids[i]) && NodeOk(s, s.pages[w].kids[i + 1])
    requires Ascending(s.pages[s.pages[w].kids[i]].seps + [s.pages[w].seps[i]] + s.pages[s.pages[w].kids[i + 1]].seps)
    requires j < |s.pages[s.pages[w].kids[i]].kids| + |s.pages[s.pages[w].kids[i + 1]].kids|
    requires KidPlace(s', s.pages[w].kids[i], j)
    ensures KidKeys(s', s.pages[w].kids[i], j)
  {
    var a, b := s.pages[w].kids[i], s.pages[w].kids[i + 1];
    var n := |s.pages[a].kids|;
    assert KidOk(s, w, i) && KidOk(s, w, i + 1);
    KidUps(s, a);
    KidUps(s, b);
    var y := s'.pages[a].kids[j];
    if j < n {
      assert KidOk(s, a, j) && y == s.pages[a].kids[j];
    } else {
      assert KidOk(s, b, j - n) && y == s.pages[b].kids[j - n];
    }
    forall q
      ensures q in s'.info[y].keys <==> q in s'.info[a].keys && InSlot(s'.pages[a].seps, j, q)
    {
      JoinSlot(s.pages[a].seps, s.pages[w].seps[i], s.pages[b].seps, j, q);
    }
  }

  lemma MergeForkOther(s: Snap, s': Snap, w: PageId, i: nat, x: PageId)
    requires ForkMerge(s, s', w, i)
    requires NodeOk(s, w) && NodeOk(s, s.pages[w].kids[i]) && NodeOk(s, s.pages[w].kids[i + 1])
    requires x != w && x != s.pages[w].kids[i] && x != s.pages[w].kids[i + 1] && NodeOk(s, x)
    ensures NodeOk(s', x)
  {
    assert KidOk(s, w, i) && KidOk(s, w, i + 1);
    if s.pages[x].Internal? {
      KidUps(s, x);
      KidUps(s, s.pages[w].kids[i + 1]);
      forall j: nat | j < |s.pages[x].kids|
        ensures KidOk(s', x, j)
      {
        assert KidOk(s, x, j);
        if j + 1 < |s.pages[x].kids| { assert KidOk(s, x, j + 1); }
      }
    }
  }

  // ---------- a new root, and dropping the root ----------

  function AsRoot(page: Page, isRoot: bool): Page {
    match page
    case Leaf(es, next, _) => Leaf(es, next, isRoot)
    case Internal(seps, kids, _) => Internal(seps, kids, isRoot)
  }

  /** From s to s', page r is put above the root. */
  ghost predicate RootGrown(s: Snap, s': Snap, r: PageId) {
    && s.root in s.pages
    && s.root in s.info
    && r !in s.info
    && s'.degree == s.degree && s'.contents == s.contents && s'.leaves == s.leaves
    && s'.root == r && s'.height == s.height + 1
    && s'.pages == s.pages[s.root := AsRoot(s.pages[s.root], false)][r := Internal([], [s.root], true)]
    && s'.info == s.info[s.root := s.info[s.root].(parent := r)][r := Info(s.height + 1, s.contents.Keys, r, 0,
       |s.leaves|)]
  }

  lemma GrowRoot(s: Snap, weak: set<PageId>, r: PageId) returns (s': Snap)
    requires Inv(s, weak) && r !in s.info && s.root in weak
    ensures RootGrown(s, s', r)
    ensures Inv(s', weak + {r})
  {
    assert NodeOk(s, s.root);
    s' := Snap(s.degree,
               s.pages[s.root := AsRoot(s.pages[s.root], false)][r := Internal([], [s.root], true)],
               s.info[s.root := s.info[s.root].(parent := r)][r := Info(s.height + 1, s.contents.Keys, r, 0,
                   |s.leaves|)],
               s.contents, r, s.height + 1, s.leaves);
    GrowRootKeeps(s, s', weak, r);
  }

  lemma GrowRootKeeps(s: Snap, s': Snap, weak: set<PageId>, r: PageId)
    requires Inv(s, weak) && s.root in weak && RootGrown(s, s', r)
    ensures Inv(s', weak + {r})
  {
    assert NodeOk(s, s.root);
    forall x | x in s'.info
      ensures NodeOk(s', x)
    {
      if x == r {
        assert KidOk(s', r, 0);
      } else {
        assert NodeOk(s, x);
        GrowRootNode(s, s', r, x);
      }
    }
    forall x | x in s'.info && x !in weak + {r}
      ensures Full(s', x)
    {
      assert Full(s, x);
    }
    forall x | x in s'.info && x != s'.root
      ensures UpOk(s', x)
    {
      if x != s.root { assert UpOk(s, x); }
    }
  }

  lemma GrowRootNode(s: Snap, s': Snap, r: PageId, x: PageId)
    requires RootOk(s) && RootGrown(s, s', r) && NodeOk(s, x) && x != r && NodeOk(s, s.root)
    ensures NodeOk(s', x)
  {
    if s.pages[x].Internal? {
      KidUps(s, x);
      forall j: nat | j < |s.pages[x].kids|
        ensures KidOk(s', x, j)
      {
        assert KidOk(s, x, j);
        if j + 1 < |s.pages[x].kids| { assert KidOk(s, x, j + 1); }
      }
    }
  }

  /** From s to s', the root page, which has a single child, is dropped. */
  ghost predicate RootDropped(s: Snap, s': Snap) {
    && s.root in s.pages
    && s.pages[s.root].Internal?
    && |s.pages[s.root].kids| == 1
    && var a := s.pages[s.root].kids[0];
       && a in s.pages
       && s'.degree == s.degree && s'.contents == s.contents && s'.leaves == s.leaves
       && s'.root == a && s'.height + 1 == s.height
       && s'.pages == s.pages[a := AsRoot(s.pages[a], true)]
       && s'.info == s.info - {s.root}
  }

  lemma ShrinkRoot(s: Snap, weak: set<PageId>) returns (s': Snap)
    requires Inv(s, weak) && s.root in s.pages && s.pages[s.root].Internal? && |s.pages[s.root].kids| == 1
    ensures RootDropped(s, s')
    ensures Inv(s', weak + {s.pages[s.root].kids[0]})
  {
    var a := s.pages[s.root].kids[0];
    assert NodeOk(s, s.root) && KidOk(s, s.root, 0) && NodeOk(s, a);
    s' := Snap(s.degree, s.pages[a := AsRoot(s.pages[a], true)], s.info - {s.root}, s.contents, a, s.height - 1,
        s.leaves);
    ShrinkRootKeeps(s, s', weak);
  }

  lemma ShrinkRootKeeps(s: Snap, s': Snap, weak: set<PageId>)
    requires Inv(s, weak) && RootDropped(s, s')
    ensures Inv(s', weak + {s.pages[s.root].kids[0]})
  {
    var a := s.pages[s.root].kids[0];
    assert NodeOk(s, s.root) && KidOk(s, s.root, 0) && NodeOk(s, a);
    assert s.info[a].keys == s.contents.Keys;
    forall x | x in s'.info
      ensures NodeOk(s', x)
    {
      assert NodeOk(s, x);
      if x != a {
        assert UpOk(s, x);
        assert NodeOk(s, s.info[x].parent);
        KidUps(s, s.info[x].parent);
      }
      ShrinkRootNode(s, s', x);
    }
    forall x | x in s'.info && x !in weak + {a}
      ensures Full(s', x)
    {
      assert Full(s, x);
    }
    forall x | x in s'.info && x != s'.root
      ensures UpOk(s', x)
    {
      assert UpOk(s, x);
    }
  }

  lemma ShrinkRootNode(s: Snap, s': Snap, x: PageId)
    requires RootOk(s) && RootDropped(s, s') && NodeOk(s, x) && x != s.root
    requires x != s.pages[s.root].kids[0] ==> s.info[x].height + 1 < s.height
    ensures NodeOk(s', x)
  {
    if s.pages[x].Internal? {
      KidUps(s, x);
      forall j: nat | j < |s.pages[x].kids|
        ensures KidOk(s', x, j)
      {
        assert KidOk(s, x, j);
        if j + 1 < |s.pages[x].kids| { assert KidOk(s, x, j + 1); }
      }
    }
  }
}
