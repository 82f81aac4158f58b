/** The page rewrites that insertion and deletion carry out, one lemma for each.

    A lemma names the index before the rewrite (which may hold one page with too many or too
    few keys) and shows that writing a few given pages leads to a well-formed index again, or
    to one where only the parent may be out of bounds.
 */
module IndexPlans {
  import opened Sequences
  import opened Values
  import opened IndexTree
  import opened IndexSplits
  import opened IndexForks

  // ---------- paths ----------

  /** Heights go down by one along a path. */
  lemma {:induction false} PathHeight(s: Snap, weak: set<PageId>, path: seq<Step>, z: PageId, j: nat)
    requires Inv(s, weak) && PathOk(s, path, z) && j <= |path|
    ensures Target(path, z, j) in s.info && s.info[Target(path, z, j)].height + j == s.height
    decreases j
  {
    if j > 0 {
      PathHeight(s, weak, path, z, j - 1);
      assert StepOk(s, path, z, j - 1);
      assert NodeOk(s, path[j - 1].pid) && KidOk(s, path[j - 1].pid, path[j - 1].idx);
    }
  }

  /** A path visits every page once. */
  lemma PathDistinct(s: Snap, weak: set<PageId>, path: seq<Step>, z: PageId)
    requires Inv(s, weak) && PathOk(s, path, z)
    ensures forall j :: 0 <= j < |path| ==> path[j].pid != z
    ensures forall i, j :: 0 <= i < j < |path| ==> path[i].pid != path[j].pid
  {
    PathHeight(s, weak, path, z, |path|);
    forall j | 0 <= j < |path|
      ensures path[j].pid in s.info && s.info[path[j].pid].height + j == s.height
    {
      PathHeight(s, weak, path, z, j);
    }
  }

  function Front(path: seq<Step>): seq<Step>
    requires |path| > 0
  {
    path[..|path| - 1]
  }

  function Last(path: seq<Step>): Step
    requires |path| > 0
  {
    path[|path| - 1]
  }

  /** The path to the parent survives changes to the parent and to pages below it. */
  lemma PathUp(s: Snap, s': Snap, weak: set<PageId>, path: seq<Step>, z: PageId)
    requires Inv(s, weak) && PathOk(s, path, z) && |path| > 0
    requires s'.root == s.root && Last(path).pid in s'.info
    requires forall x :: x in s.pages && x in s.info && x != Last(path).pid && s.info[x].height > s.height - |path| ==>
               x in s'.pages && x in s'.info && s'.pages[x] == s.pages[x]
    ensures PathOk(s', Front(path), Last(path).pid)
  {
    var w := Last(path).pid;
    assert Target(path, z, 0) == Target(Front(path), w, 0);
    forall j: nat | j < |path| - 1
      ensures StepOk(s', Front(path), w, j)
    {
      assert StepOk(s, path, z, j);
      PathHeight(s, weak, path, z, j);
      PathHeight(s, weak, path, z, |path| - 1);
      assert Target(Front(path), w, j + 1) == Target(path, z, j + 1);
      assert StepOk(s, path, z, |path| - 1);
      assert NodeOk(s, w);
    }
  }

  /** A path stays a path while its pages keep their children. */
  lemma PathSame(s: Snap, s': Snap, path: seq<Step>, z: PageId)
    requires PathOk(s, path, z) && s'.root == s.root && s.info.Keys <= s'.info.Keys
    requires forall x :: x in s.pages && x in s.info && s.pages[x].Internal? ==>
               x in s'.pages && s'.pages[x].Internal? && s'.pages[x].kids == s.pages[x].kids
    ensures PathOk(s', path, z)
  {
    forall j: nat | j < |path|
      ensures StepOk(s', path, z, j)
    {
      assert StepOk(s, path, z, j);
    }
  }

  /** The last step of a path: z is child idx of the last page. */
  lemma LastStep(s: Snap, weak: set<PageId>, path: seq<Step>, z: PageId)
    requires Inv(s, weak) && PathOk(s, path, z) && |path| > 0
    ensures HasKid(s, Last(path).pid, Last(path).idx)
    ensures s.pages[Last(path).pid].kids[Last(path).idx] == z
    ensures z != s.root && z != Last(path).pid
    ensures NodeOk(s, Last(path).pid) && NodeOk(s, z) && KidOk(s, Last(path).pid, Last(path).idx)
  {
    assert StepOk(s, path, z, |path| - 1);
    var w := Last(path).pid;
    assert NodeOk(s, w) && KidOk(s, w, Last(path).idx) && NodeOk(s, z);
  }

  lemma Strengthen(s: Snap, weak: set<PageId>, weak': set<PageId>)
    requires Inv(s, weak)
    requires forall x :: x in weak && x !in weak' && x in s.info ==> Full(s, x)
    ensures Inv(s, weak')
  {
  }

  lemma FirstKept(s: Snap, weak: set<PageId>)
    requires Inv(s, weak)
    ensures |s.leaves| > 0
  {
    RootHasLeaf(s, weak, s.root);
  }

  lemma {:induction false} RootHasLeaf(s: Snap, weak: set<PageId>, x: PageId)
    requires Inv(s, weak) && x in s.info
    ensures |s.leaves| > 0
    decreases s.info[x].height
  {
    assert NodeOk(s, x);
    if s.pages[x].Internal? {
      assert KidOk(s, x, 0);
      RootHasLeaf(s, weak, s.pages[x].kids[0]);
    }
  }

  // ---------- an overfull leaf ----------

  /** Both halves of a split leaf have enough keys when their sizes say so. */
  lemma LeafHalves(s: Snap, s': Snap, w: PageId, i: nat, cut: nat, r: PageId)
    requires LeafSplit(s, s', w, i, cut, r) && r != s.root && s.pages[w].kids[i] != s.root
    requires s.degree - 1 <= cut <= 2 * s.degree - 1
    requires s.degree - 1 <= |s.pages[s.pages[w].kids[i]].entries| - cut <= 2 * s.degree - 1
    ensures Full(s', s.pages[w].kids[i]) && Full(s', r)
  {
    var es := s.pages[s.pages[w].kids[i]].entries;
    assert es[..cut][0].key in KeySet(es[..cut]) && es[cut..][0].key in KeySet(es[cut..]);
  }

  /** Splitting a leaf into halves of proper size; only the parent may be out of bounds afterwards. */
  lemma SplitLeafEvenly(s: Snap, weak: set<PageId>, w: PageId, i: nat, cut: nat, r: PageId) returns (s': Snap)
    requires Inv(s, weak) && HasLeaf(s, w, i) && r !in s.info && weak <= {w, s.pages[w].kids[i]}
    requires s.degree - 1 <= cut <= 2 * s.degree - 1
    requires s.degree - 1 <= |s.pages[s.pages[w].kids[i]].entries| - cut <= 2 * s.degree - 1
    ensures LeafSplit(s, s', w, i, cut, r)
    ensures Inv(s', {w})
  {
    assert NodeOk(s, w) && NodeOk(s, s.pages[w].kids[i]) && KidOk(s, w, i);
    s' := SplitLeaf(s, weak, w, i, cut, r);
    LeafHalves(s, s', w, i, cut, r);
    Strengthen(s', weak + {w, r, s.pages[w].kids[i]}, {w});
  }

  lemma RootLeafPages(s: Snap, s1: Snap, s': Snap, z: PageId, right: PageId, top: PageId)
    requires RootGrown(s, s1, top) && s.root == z && s.pages[z].Leaf? && z != top && right != z && right != top
    requires LeafSplit(s1, s', top, 0, s.degree, right)
    ensures var es := s.pages[z].entries;
            s'.pages == s.pages[z := Leaf(es[..s.degree], At(right), false)]
                       [right := Leaf(es[s.degree..], s.pages[z].next, false)]
                       [top := Internal([es[s.degree].key], [z, right], true)]
  {
    assert s1.pages[top] == Internal([], [z], true);
    var es := s.pages[z].entries;
    assert InsertAt(s1.pages[top].seps, 0, es[s.degree].key) == [es[s.degree].key];
    assert InsertAt(s1.pages[top].kids, 1, right) == [z, right];
  }

  /** Splitting a leaf that is the root: two leaves below a new root. */
  lemma SplitRootLeaf(s: Snap, z: PageId, right: PageId, top: PageId) returns (s': Snap)
    requires Inv(s, {z}) && s.root == z && z in s.pages && s.pages[z].Leaf? && |s.pages[z].entries| == 2 * s.degree
    requires right !in s.info && top !in s.info && right != top
    ensures Inv(s', {})
    ensures var es := s.pages[z].entries;
            s'.pages == s.pages[z := Leaf(es[..s.degree], At(right), false)]
                       [right := Leaf(es[s.degree..], s.pages[z].next, false)]
                       [top := Internal([es[s.degree].key], [z, right], true)]
    ensures s'.contents == s.contents && s'.degree == s.degree && s'.root == top && s'.height == s.height + 1
    ensures LinkAt(s'.leaves, 0) == At(z)
  {
    assert NodeOk(s, z);
    var s1 := GrowRoot(s, {z}, top);
    assert NodeOk(s1, top) && NodeOk(s1, z);
    s' := SplitLeafEvenly(s1, {z} + {top}, top, 0, s.degree, right);
    assert s.pages[z].entries[0].key in KeySet(s.pages[z].entries);
    assert Full(s', top);
    Strengthen(s', {top}, {});
    RootLeafPages(s, s1, s', z, right, top);
  }

  /** Splitting any other leaf: its parent gains a separator. */
  lemma SplitLeafUnder(s: Snap, path: seq<Step>, z: PageId, right: PageId) returns (s': Snap)
    requires Inv(s, {z}) && PathOk(s, path, z) && |path| > 0
    requires z in s.pages && s.pages[z].Leaf? && |s.pages[z].entries| == 2 * s.degree
    requires right !in s.info
    ensures HasKid(s, Last(path).pid, Last(path).idx)
    ensures var es, w, i := s.pages[z].entries, Last(path).pid, Last(path).idx;
            && Inv(s', {w}) && Rich(s', w) && PathOk(s', Front(path), w)
            && s'.pages == s.pages[z := Leaf(es[..s.degree], At(right), false)]
                          [right := Leaf(es[s.degree..], s.pages[z].next, false)]
                          [w := Internal(InsertAt(s.pages[w].seps, i, es[s.degree].key),
                              InsertAt(s.pages[w].kids, i + 1, right), s.pages[w].isRoot)]
            && Count(s'.pages[w]) <= 2 * s.degree && right in s'.info
    ensures s'.contents == s.contents && s'.degree == s.degree && s'.root == s.root && s'.height == s.height
    ensures LinkAt(s'.leaves, 0) == LinkAt(s.leaves, 0)
  {
    LastStep(s, {z}, path, z);
    var w, i := Last(path).pid, Last(path).idx;
    assert Full(s, w);
    s' := SplitLeafEvenly(s, {z}, w, i, s.degree, right);
    ParentOfHalves(s, s', w, i, s.degree, right);
    PathHeight(s, {z}, path, z, |path| - 1);
    PathUp(s, s', {z}, path, z);
    FirstKept(s, {z});
  }

  /** The parent of the two halves has one key more than before. */
  lemma ParentOfHalves(s: Snap, s': Snap, w: PageId, i: nat, cut: nat, r: PageId)
    requires LeafSplit(s, s', w, i, cut, r) && Full(s, w)
    ensures Rich(s', w) && Count(s'.pages[w]) == Count(s.pages[w]) + 1 <= 2 * s.degree
  {
  }

  // ---------- an overfull internal page ----------

  /** Children of a page are none of the page itself, its parent and its siblings. */
  lemma KidsLower(s: Snap, weak: set<PageId>, w: PageId, i: nat)
    requires Inv(s, weak) && HasFork(s, w, i)
    ensures forall y :: y in s.pages[s.pages[w].kids[i]].kids ==>
              y in s.info && s.info[y].height + 2 == s.info[w].height
    ensures s.info[s.pages[w].kids[i]].height + 1 == s.info[w].height && s.pages[w].kids[i] != s.root &&
            s.pages[w].kids[i] != w
  {
    assert NodeOk(s, w) && NodeOk(s, s.pages[w].kids[i]) && KidOk(s, w, i);
    KidUps(s, s.pages[w].kids[i]);
  }

  lemma ForkHalves(s: Snap, s': Snap, weak: set<PageId>, w: PageId, i: nat, mid: nat, r: PageId)
    requires Inv(s, weak) && ForkSplit(s, s', w, i, mid, r)
    requires forall y :: y in s.pages[s.pages[w].kids[i]].kids ==> y !in weak
    requires s.degree - 1 <= mid <= 2 * s.degree - 1
    requires s.degree - 1 <= |s.pages[s.pages[w].kids[i]].seps| - mid - 1 <= 2 * s.degree - 1
    ensures Full(s', s.pages[w].kids[i]) && Full(s', r)
  {
    var z := s.pages[w].kids[i];
    KidsLower(s, weak, w, i);
    assert NodeOk(s, z) && KidOk(s, z, mid) && KidOk(s, z, mid + 1);
    assert Full(s, s.pages[z].kids[mid]) && Full(s, s.pages[z].kids[mid + 1]);
    var q :| q in s.info[s.pages[z].kids[mid]].keys;
    assert q in s'.info[z].keys;
    var q' :| q' in s.info[s.pages[z].kids[mid + 1]].keys;
    assert q' in s'.info[r].keys;
  }

  lemma SplitForkEvenly(s: Snap, weak: set<PageId>, w: PageId, i: nat, mid: nat, r: PageId) returns (s': Snap)
    requires Inv(s, weak) && HasFork(s, w, i) && r !in s.info && weak <= {w, s.pages[w].kids[i]}
    requires s.degree - 1 <= mid <= 2 * s.degree - 1
    requires s.degree - 1 <= |s.pages[s.pages[w].kids[i]].seps| - mid - 1 <= 2 * s.degree - 1
    ensures ForkSplit(s, s', w, i, mid, r)
    ensures Inv(s', {w})
  {
    KidsLower(s, weak, w, i);
    s' := SplitFork(s, weak, w, i, mid, r);
    ForkHalves(s, s', weak, w, i, mid, r);
    Strengthen(s', weak + {w, r, s.pages[w].kids[i]}, {w});
  }

  lemma RootForkPages(s: Snap, s1: Snap, s': Snap, z: PageId, right: PageId, top: PageId)
    requires RootGrown(s, s1, top) && s.root == z && s.pages[z].Internal? && z != top && right != z && right != top
    requires ForkSplit(s1, s', top, 0, s.degree - 1, right)
    ensures var seps, kids := s.pages[z].seps, s.pages[z].kids;
            s'.pages == s.pages[z := Internal(seps[..s.degree - 1], kids[..s.degree], false)]
                       [right := Internal(seps[s.degree..], kids[s.degree..], false)]
                       [top := Internal([seps[s.degree - 1]], [z, right], true)]
  {
    assert s1.pages[top] == Internal([], [z], true);
    assert InsertAt(s1.pages[top].seps, 0, s.pages[z].seps[s.degree - 1]) == [s.pages[z].seps[s.degree - 1]];
    assert InsertAt(s1.pages[top].kids, 1, right) == [z, right];
  }

  /** Splitting an internal root. */
  lemma SplitRootFork(s: Snap, z: PageId, right: PageId, top: PageId) returns (s': Snap)
    requires Inv(s, {z}) && s.root == z && Rich(s, z) && s.pages[z].Internal? && |s.pages[z].seps| == 2 * s.degree
    requires |s.pages[z].kids| == 2 * s.degree + 1
    requires right !in s.info && top !in s.info && right != top
    ensures Inv(s', {})
    ensures var seps, kids := s.pages[z].seps, s.pages[z].kids;
            s'.pages == s.pages[z := Internal(seps[..s.degree - 1], kids[..s.degree], false)]
                       [right := Internal(seps[s.degree..], kids[s.degree..], false)]
                       [top := Internal([seps[s.degree - 1]], [z, right], true)]
    ensures s'.contents == s.contents && s'.degree == s.degree && s'.root == top && s'.height == s.height + 1
    ensures LinkAt(s'.leaves, 0) == LinkAt(s.leaves, 0)
  {
    assert NodeOk(s, z);
    var s1 := GrowRoot(s, {z}, top);
    assert NodeOk(s1, top) && NodeOk(s1, z);
    s' := SplitForkEvenly(s1, {z} + {top}, top, 0, s.degree - 1, right);
    assert Full(s', top);
    Strengthen(s', {top}, {});
    RootForkPages(s, s1, s', z, right, top);
  }

  /** Splitting any other internal page: its parent gains a separator. */
  lemma SplitForkUnder(s: Snap, path: seq<Step>, z: PageId, right: PageId) returns (s': Snap)
    requires Inv(s, {z}) && PathOk(s, path, z) && |path| > 0
    requires z in s.pages && s.pages[z].Internal? && |s.pages[z].seps| == 2 * s.degree &&
             |s.pages[z].kids| == 2 * s.degree + 1
    requires right !in s.info
    ensures HasKid(s, Last(path).pid, Last(path).idx)
    ensures var seps, kids, w, i := s.pages[z].seps, s.pages[z].kids, Last(path).pid, Last(path).idx;
            && Inv(s', {w}) && Rich(s', w) && PathOk(s', Front(path), w)
            && s'.pages == s.pages[z := Internal(seps[..s.degree - 1], kids[..s.degree], false)]
                          [right := Internal(seps[s.degree..], kids[s.degree..], false)]
                          [w := Internal(InsertAt(s.pages[w].seps, i, seps[s.degree - 1]),
                              InsertAt(s.pages[w].kids, i + 1, right), s.pages[w].isRoot)]
            && Count(s'.pages[w]) <= 2 * s.degree && right in s'.info
    ensures s'.contents == s.contents && s'.degree == s.degree && s'.root == s.root && s'.height == s.height
    ensures LinkAt(s'.leaves, 0) == LinkAt(s.leaves, 0)
  {
    LastStep(s, {z}, path, z);
    var w, i := Last(path).pid, Last(path).idx;
    s' := SplitForkEvenly(s, {z}, w, i, s.degree - 1, right);
    assert Full(s, w);
    PathHeight(s, {z}, path, z, |path| - 1);
    assert w !in s.pages[z].kids by { KidUps(s, z); }
    PathUp(s, s', {z}, path, z);
  }

  // ---------- moving keys between two siblings ----------

  lemma ReplaceAt<T>(s: seq<T>, i: nat, v: T)
    requires i < |s|
    ensures InsertAt(RemoveAt(s, i), i, v) == s[i := v]
  {
    var l := InsertAt(RemoveAt(s, i), i, v);
    assert |l| == |s|;
    forall j | 0 <= j < |s|
      ensures l[j] == s[i := v][j]
    {
    }
  }

  /** Later writes to a and w hide earlier ones. */
  lemma Rewritten<K, V>(m: map<K, V>, a: K, b: K, w: K, a1: V, w1: V, a2: V, b2: V, w2: V)
    ensures m[a := a1][w := w1][a := a2][b := b2][w := w2] == m[a := a2][b := b2][w := w2]
  {
  }

  lemma SharedLeafPages(s: Snap, s1: Snap, s': Snap, w: PageId, i: nat, cut: nat)
    requires LeafMerge(s, s1, w, i) && LeafSplit(s1, s', w, i, cut, s.pages[w].kids[i + 1])
    requires s1.pages[w].kids[i] == s.pages[w].kids[i]
    ensures var a, b := s.pages[w].kids[i], s.pages[w].kids[i + 1];
            var es := s.pages[a].entries + s.pages[b].entries;
            s'.pages == s.pages[a := Leaf(es[..cut], At(b), false)]
                       [b := Leaf(es[cut..], s.pages[b].next, false)]
                       [w := Internal(s.pages[w].seps[i := es[cut].key], s.pages[w].kids, s.pages[w].isRoot)]
  {
    var es := s.pages[s.pages[w].kids[i]].entries + s.pages[s.pages[w].kids[i + 1]].entries;
    ReplaceAt(s.pages[w].seps, i, es[cut].key);
    ReplaceAt(s.pages[w].kids, i + 1, s.pages[w].kids[i + 1]);
    var a, b := s.pages[w].kids[i], s.pages[w].kids[i + 1];
    assert s.pages[w].kids[i + 1 := b] == s.pages[w].kids;
    assert s'.pages[w] == Internal(s.pages[w].seps[i := es[cut].key], s.pages[w].kids, s.pages[w].isRoot);
    Rewritten(s.pages, a, b, w, s1.pages[a], s1.pages[w], s'.pages[a], s'.pages[b], s'.pages[w]);
  }

  lemma SharedForkPages(s: Snap, s1: Snap, s': Snap, w: PageId, i: nat, mid: nat)
    requires ForkMerge(s, s1, w, i) && ForkSplit(s1, s', w, i, mid, s.pages[w].kids[i + 1])
    requires s1.pages[w].kids[i] == s.pages[w].kids[i]
    ensures var a, b := s.pages[w].kids[i], s.pages[w].kids[i + 1];
            var seps := s.pages[a].seps + [s.pages[w].seps[i]] + s.pages[b].seps;
            var kids := s.pages[a].kids + s.pages[b].kids;
            s'.pages == s.pages[a := Internal(seps[..mid], kids[..mid + 1], false)]
                       [b := Internal(seps[mid + 1..], kids[mid + 1..], false)]
                       [w := Internal(s.pages[w].seps[i := seps[mid]], s.pages[w].kids, s.pages[w].isRoot)]
  {
    var a, b := s.pages[w].kids[i], s.pages[w].kids[i + 1];
    var seps := s.pages[a].seps + [s.pages[w].seps[i]] + s.pages[b].seps;
    ReplaceAt(s.pages[w].seps, i, seps[mid]);
    ReplaceAt(s.pages[w].kids, i + 1, b);
    assert s.pages[w].kids[i + 1 := b] == s.pages[w].kids;
    assert s'.pages[w] == Internal(s.pages[w].seps[i := seps[mid]], s.pages[w].kids, s.pages[w].isRoot);
    Rewritten(s.pages, a, b, w, s1.pages[a], s1.pages[w], s'.pages[a], s'.pages[b], s'.pages[w]);
  }

  /** Two neighbouring leaves share their entries anew. */
  lemma ShareLeaves(s: Snap, weak: set<PageId>, w: PageId, i: nat, cut: nat) returns (s': Snap)
    requires Inv(s, weak) && HasLeaf(s, w, i) && HasLeaf(s, w, i + 1)
    requires weak <= {s.pages[w].kids[i], s.pages[w].kids[i + 1]}
    requires s.degree - 1 <= cut <= 2 * s.degree - 1
    requires s.degree - 1 <= |s.pages[s.pages[w].kids[i]].entries| +
             |s.pages[s.pages[w].kids[i + 1]].entries| - cut <= 2 * s.degree - 1
    ensures Inv(s', {})
    ensures var a, b := s.pages[w].kids[i], s.pages[w].kids[i + 1];
            var es := s.pages[a].entries + s.pages[b].entries;
            s'.pages == s.pages[a := Leaf(es[..cut], At(b), false)]
                       [b := Leaf(es[cut..], s.pages[b].next, false)]
                       [w := Internal(s.pages[w].seps[i := es[cut].key], s.pages[w].kids, s.pages[w].isRoot)]
    ensures s'.contents == s.contents && s'.degree == s.degree && s'.root == s.root && s'.height == s.height
    ensures LinkAt(s'.leaves, 0) == LinkAt(s.leaves, 0)
    ensures s'.info.Keys == s.info.Keys
    ensures s'.info[s.pages[w].kids[i]].keys == KeySet((s.pages[s.pages[w].kids[i]].entries +
            s.pages[s.pages[w].kids[i + 1]].entries)[..cut])
  {
    var a, b := s.pages[w].kids[i], s.pages[w].kids[i + 1];
    var s1 := MergeLeafLoose(s, weak, w, i);
    s' := SplitLeafEvenly(s1, {w, a}, w, i, cut, b);
    SharedLeafPages(s, s1, s', w, i, cut);
    assert Full(s', w);
    Strengthen(s', {w}, {});
  }

  /** Two neighbouring internal pages share their children anew, through the separator between them. */
  lemma ShareForks(s: Snap, weak: set<PageId>, w: PageId, i: nat, mid: nat) returns (s': Snap)
    requires Inv(s, weak) && HasFork(s, w, i) && HasFork(s, w, i + 1)
    requires weak <= {s.pages[w].kids[i], s.pages[w].kids[i + 1]}
    requires s.degree - 1 <= mid <= 2 * s.degree - 1
    requires s.degree - 1 <= |s.pages[s.pages[w].kids[i]].seps| +
             |s.pages[s.pages[w].kids[i + 1]].seps| - mid <= 2 * s.degree - 1
    ensures Inv(s', {})
    ensures var a, b := s.pages[w].kids[i], s.pages[w].kids[i + 1];
            var seps := s.pages[a].seps + [s.pages[w].seps[i]] + s.pages[b].seps;
            var kids := s.pages[a].kids + s.pages[b].kids;
            s'.pages == s.pages[a := Internal(seps[..mid], kids[..mid + 1], false)]
                       [b := Internal(seps[mid + 1..], kids[mid + 1..], false)]
                       [w := Internal(s.pages[w].seps[i := seps[mid]], s.pages[w].kids, s.pages[w].isRoot)]
    ensures s'.contents == s.contents && s'.degree == s.degree && s'.root == s.root && s'.height == s.height
    ensures LinkAt(s'.leaves, 0) == LinkAt(s.leaves, 0)
    ensures s'.info.Keys == s.info.Keys
  {
    var a, b := s.pages[w].kids[i], s.pages[w].kids[i + 1];
    var s1 := MergeForkLoose(s, weak, w, i);
    s' := SplitForkEvenly(s1, {w, a}, w, i, mid, b);
    SharedForkPages(s, s1, s', w, i, mid);
    assert Full(s', w);
    Strengthen(s', {w}, {});
  }

  // ---------- joining two siblings ----------

  /** Two neighbouring leaves become one; their parent loses a separator. */
  lemma JoinLeaves(s: Snap, weak: set<PageId>, path: seq<Step>, w: PageId, i: nat, a: PageId, b: PageId)
    returns (s': Snap)
    requires Inv(s, weak) && PathOk(s, path, a) && |path| > 0 && Last(path) == Step(w, i)
    requires HasLeaf(s, w, i) && HasLeaf(s, w, i + 1) && a == s.pages[w].kids[i] && b == s.pages[w].kids[i + 1]
    requires weak <= {a, b}
    requires s.degree - 1 <= |s.pages[a].entries| + |s.pages[b].entries| <= 2 * s.degree - 1
    ensures LeafMerge(s, s', w, i)
    ensures Inv(s', {w}) && Full(s', a) && PathOk(s', Front(path), w)
    ensures s'.info[w].keys != {} && Full(s, w)
    ensures LinkAt(s'.leaves, 0) == LinkAt(s.leaves, 0)
  {
    assert NodeOk(s, w);
    s' := MergeLeafLoose(s, weak, w, i);
    JoinedLeafFull(s, s', weak, w, i);
    Strengthen(s', {w, a}, {w});
    JoinedPath(s, s', weak, path, w, a);
    FirstKept(s, weak);
  }

  lemma MergeLeafLoose(s: Snap, weak: set<PageId>, w: PageId, i: nat) returns (s': Snap)
    requires Inv(s, weak) && HasLeaf(s, w, i) && HasLeaf(s, w, i + 1)
    requires weak <= {s.pages[w].kids[i], s.pages[w].kids[i + 1]}
    ensures LeafMerge(s, s', w, i) && Inv(s', {w, s.pages[w].kids[i]}) && Full(s, w)
    ensures s'.info[w].keys == s.info[w].keys && s.pages[w].kids[i] != s.root
    ensures s.info[s.pages[w].kids[i]].height == s.info[s.pages[w].kids[i + 1]].height
    ensures LinkAt(s'.leaves, 0) == LinkAt(s.leaves, 0)
  {
    assert NodeOk(s, w) && KidOk(s, w, i) && KidOk(s, w, i + 1);
    assert Full(s, w);
    s' := MergeLeaf(s, weak, w, i);
    Strengthen(s', weak + {w, s.pages[w].kids[i]}, {w, s.pages[w].kids[i]});
  }

  lemma JoinedLeafFull(s: Snap, s': Snap, weak: set<PageId>, w: PageId, i: nat)
    requires LeafMerge(s, s', w, i) && Inv(s', weak + {w, s.pages[w].kids[i]}) && s.pages[w].kids[i] != s.root
    requires s.degree - 1 <= |s.pages[s.pages[w].kids[i]].entries| +
             |s.pages[s.pages[w].kids[i + 1]].entries| <= 2 * s.degree - 1
    ensures Full(s', s.pages[w].kids[i])
  {
    var a, b := s.pages[w].kids[i], s.pages[w].kids[i + 1];
    assert NodeOk(s', a);
    var es := s.pages[a].entries + s.pages[b].entries;
    assert es[0].key in KeySet(es);
  }

  /** The path to the parent survives a join below it. */
  lemma JoinedPath(s: Snap, s': Snap, weak: set<PageId>, path: seq<Step>, w: PageId, a: PageId)
    requires Inv(s, weak) && PathOk(s, path, a) && |path| > 0 && Last(path).pid == w
    requires s'.root == s.root && w in s'.info
    requires forall x :: x in s.pages && x in s.info && a in s.info && x != w && s.info[x].height > s.info[a].height ==>
               x in s'.pages && x in s'.info && s'.pages[x] == s.pages[x]
    ensures PathOk(s', Front(path), w)
  {
    PathHeight(s, weak, path, a, |path|);
    PathUp(s, s', weak, path, a);
  }

  /** Two neighbouring internal pages become one around the separator between them. */
  lemma JoinForks(s: Snap, weak: set<PageId>, path: seq<Step>, w: PageId, i: nat, a: PageId, b: PageId)
    returns (s': Snap)
    requires Inv(s, weak) && PathOk(s, path, a) && |path| > 0 && Last(path) == Step(w, i)
    requires HasFork(s, w, i) && HasFork(s, w, i + 1) && a == s.pages[w].kids[i] && b == s.pages[w].kids[i + 1]
    requires weak <= {a, b}
    requires s.degree - 1 <= |s.pages[a].seps| + 1 + |s.pages[b].seps| <= 2 * s.degree - 1
    ensures ForkMerge(s, s', w, i)
    ensures Inv(s', {w}) && Full(s', a) && PathOk(s', Front(path), w)
    ensures s'.info[w].keys != {} && Full(s, w)
    ensures LinkAt(s'.leaves, 0) == LinkAt(s.leaves, 0)
  {
    KidsLower(s, weak, w, i + 1);
    s' := MergeForkLoose(s, weak, w, i);
    KidHasKeys(s, weak, b);
    assert Full(s', a);
    Strengthen(s', {w, a}, {w});
    JoinedPath(s, s', weak, path, w, a);
  }

  lemma MergeForkLoose(s: Snap, weak: set<PageId>, w: PageId, i: nat) returns (s': Snap)
    requires Inv(s, weak) && HasFork(s, w, i) && HasFork(s, w, i + 1)
    requires weak <= {s.pages[w].kids[i], s.pages[w].kids[i + 1]}
    ensures ForkMerge(s, s', w, i) && Inv(s', {w, s.pages[w].kids[i]}) && Full(s, w)
    ensures s'.info[w].keys == s.info[w].keys && s.pages[w].kids[i] != s.root
    ensures s.info[s.pages[w].kids[i]].height == s.info[s.pages[w].kids[i + 1]].height &&
            s.info[s.pages[w].kids[i]].height < s.info[w].height
    ensures forall y :: y in s.pages[s.pages[w].kids[i + 1]].kids ==> y !in weak
  {
    assert NodeOk(s, w) && KidOk(s, w, i) && KidOk(s, w, i + 1);
    KidsLower(s, weak, w, i);
    KidsLower(s, weak, w, i + 1);
    assert Full(s, w);
    s' := MergeFork(s, weak, w, i);
    Strengthen(s', weak + {w, s.pages[w].kids[i]}, {w, s.pages[w].kids[i]});
  }

  lemma KidHasKeys(s: Snap, weak: set<PageId>, b: PageId)
    requires Inv(s, weak) && b in s.info && b in s.pages && s.pages[b].Internal?
    requires forall y :: y in s.pages[b].kids ==> y !in weak
    ensures s.info[b].keys != {}
  {
    assert NodeOk(s, b) && KidOk(s, b, 0) && Full(s, s.pages[b].kids[0]);
    var q :| q in s.info[s.pages[b].kids[0]].keys;
    assert q in s.info[b].keys;
  }

  /** A root left without separators gives way to its only child. */
  lemma CollapseRoot(s: Snap) returns (s': Snap)
    requires Inv(s, {s.root}) && s.root in s.pages && s.pages[s.root].Internal? && s.pages[s.root].seps == []
    ensures RootDropped(s, s') && Inv(s', {})
  {
    assert NodeOk(s, s.root) && KidOk(s, s.root, 0);
    var a := s.pages[s.root].kids[0];
    assert Full(s, a);
    s' := ShrinkRoot(s, {s.root});
    assert Full(s', a);
    Strengthen(s', {s.root} + {a}, {});
  }

  /** Pages outside the tree do not matter. */
  lemma Garbage(s: Snap, weak: set<PageId>, q: PageFile)
    requires Inv(s, weak)
    requires forall x :: x in s.info && x in s.pages ==> x in q && q[x] == s.pages[x]
    ensures Inv(s.(pages := q), weak)
  {
    var s' := s.(pages := q);
    forall x | x in s'.info
      ensures NodeOk(s', x)
    {
      assert NodeOk(s, x);
      if s.pages[x].Internal? {
        forall j: nat | j < |s.pages[x].kids|
          ensures KidOk(s', x, j)
        {
          assert KidOk(s, x, j);
        }
      }
    }
    forall x | x in s'.info && x !in weak
      ensures Full(s', x)
    {
      assert Full(s, x);
    }
    forall x | x in s'.info && x != s'.root
      ensures UpOk(s', x)
    {
      assert UpOk(s, x) && NodeOk(s, s.info[x].parent);
    }
  }

  /** The index with a single entry. */
  lemma Singleton(d: Degree, p: PageFile, x: PageId, key: Value, rid: nat) returns (s: Snap)
    requires x in p && p[x] == Leaf([Entry(key, rid)], NoPage, true)
    ensures s.degree == d && s.pages == p && s.contents == map[key := rid] && s.root == x && s.height == 1
    ensures LinkAt(s.leaves, 0) == At(x) && Inv(s, {})
  {
    s := Snap(d, p, map[x := Info(1, {key}, x, 0, 1)], map[key := rid], x, 1, [x]);
    assert p[x].entries[0].key == key;
    assert KeySet(p[x].entries) == {key};
    assert NodeOk(s, x) && Full(s, x);
  }

  /** Replacing the root by its only child a, on a disk where the root page itself is stale. */
  lemma Promote(v: Snap, a: PageId, disk: PageFile) returns (v': Snap)
    requires Inv(v, {v.root}) && v.root in v.pages && v.pages[v.root].Internal? && v.pages[v.root].seps == [] &&
             v.pages[v.root].kids == [a]
    requires v.root in disk && v.pages == disk[v.root := v.pages[v.root]]
    ensures a in v.pages && Inv(v', {}) && v'.pages == disk[a := AsRoot(v.pages[a], true)]
    ensures v'.degree == v.degree && v'.contents == v.contents && v'.root == a && v'.height + 1 == v.height &&
            v'.leaves == v.leaves
    ensures v.pages[a].Leaf? ==> v'.height == 1 && LinkAt(v'.leaves, 0) == At(a)
  {
    var s := CollapseRoot(v);
    assert NodeOk(v, v.root) && KidOk(v, v.root, 0) && NodeOk(v, a);
    Garbage(s, {}, disk[a := AsRoot(v.pages[a], true)]);
    v' := s.(pages := disk[a := AsRoot(v.pages[a], true)]);
    assert NodeOk(s, a);
  }
}
