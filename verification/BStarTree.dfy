/** The paged B*-tree index: search, insertion with overflow into the right sibling, deletion with
    redistribution and merging, and range scans along the leaf chain. */
module BStarTree {
  import opened Common
  import opened Sequences
  import opened Values
  import opened IndexTree
  import opened IndexSteps
  import opened IndexSplits
  import opened IndexForks
  import opened IndexPlans
  import opened IndexScan

  /** The part of the metadata page that changes. */
  datatype Meta = Meta(root: Link, firstLeaf: Link, height: nat)

  class Index {
    const degree: Degree
    const keyType: ValueType
    const maxKeyBytes: nat

    var pages: PageFile      // node pages, by page id; page 0 is the metadata page
    var pageCount: nat       // pages allocated so far
    var root: Link
    var firstLeaf: Link
    var height: nat
    var saved: Meta          // what the metadata page holds

    ghost var Contents: map<Value, nat>
    ghost var info: map<PageId, Info>
    ghost var leaves: seq<PageId>

    ghost function S(): Snap
      requires root.At?
      reads this
    {
      Snap(degree, pages, info, Contents, root.id, height, leaves)
    }

    /** Every page is allocated and holds only keys of the index's type and size. */
    ghost predicate Disk()
      reads this
    {
      0 < pageCount && forall x :: x in pages ==> 0 < x < pageCount && KeysFit(pages[x])
    }

    ghost predicate EntriesFit(es: seq<Entry>) {
      forall i :: 0 <= i < |es| ==> ValidKey(es[i].key)
    }

    ghost predicate SepsFit(seps: seq<Value>) {
      forall i :: 0 <= i < |seps| ==> ValidKey(seps[i])
    }

    ghost predicate KeysFit(page: Page) {
      match page
      case Leaf(es, _, _) => EntriesFit(es)
      case Internal(seps, kids, _) => |kids| == |seps| + 1 && SepsFit(seps)
    }

    ghost predicate Sane()
      reads this
    {
      && Disk()
      && saved == Meta(root, firstLeaf, height)
    }

    /** The tree is well-formed except that pages in `weak` may hold too few or too many keys. */
    ghost predicate Almost(weak: set<PageId>)
      reads this
    {
      && Sane()
      && root.At?
      && Inv(S(), weak)
      && firstLeaf == LinkAt(leaves, 0)
    }

    ghost predicate Valid()
      reads this
    {
      && (root.At? ==> Almost({}))
      && (root.NoPage? ==> Sane() && firstLeaf.NoPage? && height == 0 && Contents == map[])
      && forall k :: k in Contents ==> ValidKey(k)
    }

    constructor (degree: Degree, keyType: ValueType, maxKeyBytes: nat)
      ensures Valid() && Contents == map[]
      ensures this.degree == degree && this.keyType == keyType && this.maxKeyBytes == maxKeyBytes
    {
      this.degree, this.keyType, this.maxKeyBytes := degree, keyType, maxKeyBytes;
      pages, pageCount := map[], 1;
      root, firstLeaf, height := NoPage, NoPage, 0;
      saved := Meta(NoPage, NoPage, 0);
      Contents, info, leaves := map[], map[], [];
    }

    /** Opening an index again: the root, the first leaf and the height come from the metadata page. */
    constructor Reopen(before: Index)
      requires before.Valid()
      ensures Valid() && Contents == before.Contents
      ensures degree == before.degree && keyType == before.keyType && maxKeyBytes == before.maxKeyBytes
      ensures pages == before.pages && root == before.root && firstLeaf == before.firstLeaf && height == before.height
    {
      degree, keyType, maxKeyBytes := before.degree, before.keyType, before.maxKeyBytes;
      pages, pageCount, saved := before.pages, before.pageCount, before.saved;
      root, firstLeaf, height := before.saved.root, before.saved.firstLeaf, before.saved.height;
      Contents, info, leaves := before.Contents, before.info, before.leaves;
      new;
      assert before.root.At? ==> S() == before.S();
    }

    // ---------- searching ----------

    /** The number of entries below a key: where the key is, or belongs. */
    static function LowerBound(es: seq<Entry>, key: Value): (pos: nat)
      ensures pos <= |es|
      ensures forall i :: 0 <= i < pos ==> Less(es[i].key, key)
      ensures pos < |es| ==> !Less(es[pos].key, key)
    {
      if es == [] || !Less(es[0].key, key) then 0 else 1 + LowerBound(es[1..], key)
    }

    static method ChooseChildIndex(seps: seq<Value>, key: Value) returns (i: nat)
      ensures InSlot(seps, i, key)
    {
      i := 0;
      while i < |seps|
        invariant i <= |seps|
        invariant i > 0 ==> Rank(seps[i - 1]) <= Rank(key)
      {
        RankOrder(key, seps[i]);
        if Less(key, seps[i]) {
          return;
        }
        i := i + 1;
      }
    }

    static lemma LowerBoundBetween(es: seq<Entry>, key: Value)
      requires AscendingEntries(es)
      ensures key !in KeySet(es) ==> Between(es, LowerBound(es, key), key)
      ensures key in KeySet(es) <==>
                LowerBound(es, key) < |es| && es[LowerBound(es, key)].key == key
    {
      var pos := LowerBound(es, key);
      forall i | 0 <= i < |es|
        ensures i < pos ==> Rank(es[i].key) < Rank(key)
        ensures i >= pos ==> Rank(key) <= Rank(es[i].key)
        ensures es[i].key == key <==> Rank(es[i].key) == Rank(key)
      {
        RankOrder(es[i].key, key);
        if i >= pos {
          RankOrder(es[pos].key, key);
          assert i == pos || Rank(es[pos].key) < Rank(es[i].key);
        }
      }
    }

    /** The search path of a key, the leaf it ends in, and the row id stored there. */
    method FindPathToLeaf(key: Value) returns (path: seq<Step>, z: PageId, existing: Option<nat>)
      requires Valid() && root.At?
      ensures PathOk(S(), path, z) && Follows(S(), path, z, key)
      ensures z in pages && pages[z].Leaf?
      ensures key in Contents <==> key in KeySet(pages[z].entries)
      ensures existing == if key in Contents then Some(Contents[key]) else None
    {
      path := [];
      z := root.id;
      ghost var s := S();
      assert NodeOk(s, z);
      while pages[z].Internal?
        invariant PathOk(s, path, z) && Follows(s, path, z, key)
        invariant z in pages && NodeOk(s, z)
        invariant key in Contents <==> key in info[z].keys
        decreases info[z].height
      {
        var i := ChooseChildIndex(pages[z].seps, key);
        assert KidOk(s, z, i);
        var next := pages[z].kids[i];
        PathExtend(s, {}, path, z, i, next, key);
        assert NodeOk(s, next);
        path := path + [Step(z, i)];
        z := next;
      }
      var es := pages[z].entries;
      var pos := LowerBound(es, key);
      LowerBoundBetween(es, key);
      if pos < |es| && es[pos].key == key {
        existing := Some(es[pos].rid);
      } else {
        existing := None;
      }
    }

    static lemma PathExtend(s: Snap, weak: set<PageId>, path: seq<Step>, z: PageId, i: nat, next: PageId, key: Value)
      requires Inv(s, weak) && PathOk(s, path, z) && Follows(s, path, z, key)
      requires z in s.pages && s.pages[z].Internal? && i < |s.pages[z].kids| && s.pages[z].kids[i] == next &&
               next in s.info
      requires InSlot(s.pages[z].seps, i, key)
      ensures PathOk(s, path + [Step(z, i)], next) && Follows(s, path + [Step(z, i)], next, key)
    {
      var path' := path + [Step(z, i)];
      assert Target(path', next, 0) == Target(path, z, 0);
      forall j: nat | j < |path'|
        ensures StepOk(s, path', next, j) && InSlot(s.pages[path'[j].pid].seps, path'[j].idx, key)
      {
        if j < |path| {
          assert StepOk(s, path, z, j);
          assert Target(path', next, j + 1) == Target(path, z, j + 1);
        }
      }
    }

    method Find(key: Value) returns (status: Status, found: Option<nat>)
      requires Valid()
      ensures status == if ValidKey(key) then Ok else InvalidArgument
      ensures found == if key in Contents then Some(Contents[key]) else None
    {
      found := None;
      if !ValidKey(key) {
        return InvalidArgument, found;
      }
      if root.At? {
        var path, z;
        path, z, found := FindPathToLeaf(key);
      }
      status := Ok;
    }

    // ---------- pages ----------

    /** The disk shows index v, except that page x has not been rewritten yet. */
    ghost predicate Shows(v: Snap, x: PageId)
      reads this
    {
      && Disk()
      && saved == Meta(root, firstLeaf, height)
      && degree == v.degree
      && root == At(v.root)
      && height == v.height
      && firstLeaf == LinkAt(v.leaves, 0)
      && x in pages
      && x in v.pages
      && v.pages == pages[x := v.pages[x]]
      && KeysFit(v.pages[x])
    }

    /** The disk holds index v; the ghost state catches up. */
    ghost method Adopt(v: Snap, weak: set<PageId>)
      requires Inv(v, weak) && pages == v.pages && degree == v.degree
      requires root == At(v.root) && height == v.height && firstLeaf == LinkAt(v.leaves, 0)
      requires Sane()
      modifies this`Contents, this`info, this`leaves
      ensures Almost(weak) && Contents == v.contents && S() == v
    {
      Contents, info, leaves := v.contents, v.info, v.leaves;
      assert S() == v;
    }

    /** Writing a page; it must exist and its contents must fit, which at most 2t-1 keys do. */
    method WriteNode(x: PageId, page: Page)
      requires Disk() && 0 < x < pageCount && Count(page) <= 2 * degree - 1 && KeysFit(page)
      modifies this`pages
      ensures Disk() && pages == old(pages)[x := page]
    {
      pages := pages[x := page];
    }

    method AllocateNodePage() returns (x: PageId)
      requires Disk()
      modifies this`pageCount
      ensures Disk() && x == old(pageCount) && pageCount == old(pageCount) + 1
    {
      x := pageCount;
      pageCount := pageCount + 1;
    }

    method WriteMetadata()
      modifies this`saved
      ensures saved == Meta(root, firstLeaf, height)
    {
      saved := Meta(root, firstLeaf, height);
    }

    /** Re-parsing a child and writing it back changes nothing. */
    method RewriteChildren(kids: seq<PageId>)
      requires Disk() && forall c :: c in kids ==> c in pages && Count(pages[c]) <= 2 * degree - 1
      modifies this`pages
      ensures Disk() && pages == old(pages)
    {
      for i := 0 to |kids|
        invariant Disk() && pages == old(pages)
      {
        WriteNode(kids[i], pages[kids[i]]);
      }
    }

    // ---------- choosing where to cut ----------

    static ghost predicate Fitting(total: nat, cut: int, least: nat, most: nat) {
      least <= cut <= most && least <= total - cut <= most
    }

    static function Distance(a: nat, b: nat): nat {
      if a > b then a - b else b - a
    }

    /** The most even cut of `total` entries into two parts of acceptable size, the first of equals. */
    static method ChooseBalancedSplit(total: nat, least: nat, most: nat) returns (best: Option<nat>)
      requires 0 < least
      ensures best.Some? <==> 2 * least <= total <= 2 * most
      ensures best.Some? ==>
                && 0 < best.value < total && Fitting(total, best.value, least, most)
                && forall k :: Fitting(total, k, least, most) ==>
                     && Distance(best.value, total - best.value) <= Distance(k, total - k)
                     && (k < best.value ==> Distance(best.value, total - best.value) < Distance(k, total - k))
    {
      best := None;
      var split := 1;
      while split < total
        invariant 1 <= split && (0 < total ==> split <= total)
        invariant best.None? ==> forall k :: 0 < k < split ==> !Fitting(total, k, least, most)
        invariant best.Some? ==>
                    && 0 < best.value < split && Fitting(total, best.value, least, most)
                    && forall k :: 0 < k < split && Fitting(total, k, least, most) ==>
                         && Distance(best.value, total - best.value) <= Distance(k, total - k)
                         && (k < best.value ==> Distance(best.value, total - best.value) < Distance(k, total - k))
      {
        if least <= split <= most && least <= total - split <= most {
          if best.None? || Distance(split, total - split) < Distance(best.value, total - best.value) {
            best := Some(split);
          }
        }
        split := split + 1;
      }
      assert 2 * least <= total <= 2 * most ==> Fitting(total, total / 2, least, most);
    }

    // ---------- separators of ancestors ----------

    /** A lower bound of the keys of the first child is one of all keys of its parent. */
    static lemma LowestBelow(s: Snap, w: PageId, z: PageId, k: Value)
      requires NodeOk(s, w) && s.pages[w].Internal? && KidOk(s, w, 0) && s.pages[w].kids[0] == z
      requires k in s.info[z].keys && forall q :: q in s.info[z].keys ==> Rank(k) <= Rank(q)
      ensures k in s.info[w].keys && forall q :: q in s.info[w].keys ==> Rank(k) <= Rank(q)
    {
      forall q | q in s.info[w].keys
        ensures Rank(k) <= Rank(q)
      {
        assert InSlot(s.pages[w].seps, 0, k);
        if InSlot(s.pages[w].seps, 0, q) { assert q in s.info[z].keys; }
      }
    }

    static lemma PathBack(s: Snap, s': Snap, path: seq<Step>, z: PageId)
      requires PathOk(s, path, z) && |path| > 0
      requires PathOk(s', Front(path), Last(path).pid)
      requires z in s'.info && Last(path).pid in s.pages && Last(path).pid in s'.pages &&
               s'.pages[Last(path).pid] == s.pages[Last(path).pid]
      ensures PathOk(s', path, z)
    {
      var w := Last(path).pid;
      assert Target(path, z, 0) == Target(Front(path), w, 0);
      forall j: nat | j < |path|
        ensures StepOk(s', path, z, j)
      {
        assert StepOk(s, path, z, j);
        if j < |path| - 1 {
          assert StepOk(s', Front(path), w, j);
          assert Target(Front(path), w, j + 1) == Target(path, z, j + 1);
        }
      }
    }

    /** Moving the separator left of page z up to its smallest key k. */
    static lemma SeparatorMoves(s: Snap, weak: set<PageId>, path: seq<Step>, z: PageId, k: Value)
      requires Inv(s, weak) && PathOk(s, path, z) && |path| > 0 && Last(path).idx > 0
      requires forall x :: x in weak && x in s.pages ==> Count(s.pages[x]) <= 2 * s.degree - 1
      requires k in s.info[z].keys && forall q :: q in s.info[z].keys ==> Rank(k) <= Rank(q)
      ensures var w, i := Last(path).pid, Last(path).idx;
              && w in s.pages && w in s.info && z in s.info && s.pages[w].Internal? && i <= |s.pages[w].seps|
              && s.info[z].height < s.info[w].height
              && Count(s.pages[w]) <= 2 * s.degree - 1
              && Inv(SepChanged(s, w, i - 1, k), weak)
              && PathOk(SepChanged(s, w, i - 1, k), path, z)
    {
      LastStep(s, weak, path, z);
      var w, i := Last(path).pid, Last(path).idx;
      assert InSlot(s.pages[w].seps, i, k);
      if w !in weak { assert Full(s, w); }
      SetSep(s, weak, w, i - 1, k);
      PathSame(s, SepChanged(s, w, i - 1, k), path, z);
    }

    /** After the smallest key below page z became k, the separator left of z follows it. */
    method UpdateParentSeparator(path: seq<Step>, k: Value, ghost z: PageId, ghost weak: set<PageId>)
      requires Almost(weak) && PathOk(S(), path, z)
      requires forall x :: x in weak && x in pages ==> Count(pages[x]) <= 2 * degree - 1
      requires k in info[z].keys && forall q :: q in info[z].keys ==> Rank(k) <= Rank(q)
      requires ValidKey(k)
      modifies this`pages
      ensures Almost(weak) && PathOk(S(), path, z)
      ensures pages.Keys == old(pages.Keys)
      ensures forall x :: x in pages ==> Count(pages[x]) == old(Count(pages[x]))
      ensures forall x :: x in pages && (x in info ==> info[x].height <= info[z].height) ==> pages[x] == old(pages[x])
      decreases |path|
    {
      ghost var s := S();
      assert NodeOk(s, z);
      if path == [] {
        return;
      }
      var w, i := Last(path).pid, Last(path).idx;
      if i == 0 {
        LastStep(s, weak, path, z);
        PathUp(s, s, weak, path, z);
        LowestBelow(s, w, z, k);
        UpdateParentSeparator(Front(path), k, w, weak);
        PathBack(s, S(), path, z);
        return;
      }
      SeparatorMoves(s, weak, path, z, k);
      WriteNode(w, Internal(pages[w].seps[i - 1 := k], pages[w].kids, pages[w].isRoot));
      assert S() == SepChanged(s, w, i - 1, k);
    }

    // ---------- redistribution ----------

    /** Page x has a right sibling under the parent that the path ends in. */
    static ghost predicate HasRight(v: Snap, path: seq<Step>) {
      && |path| > 0
      && Last(path).pid in v.pages
      && v.pages[Last(path).pid].Internal?
      && Last(path).idx + 1 < |v.pages[Last(path).pid].kids|
      && v.pages[Last(path).pid].kids[Last(path).idx + 1] in v.pages
    }

    static ghost function RightOf(v: Snap, path: seq<Step>): PageId
      requires HasRight(v, path)
    {
      v.pages[Last(path).pid].kids[Last(path).idx + 1]
    }

    /** Only page x and its right sibling may be out of bounds. */
    static ghost predicate WeakNear(v: Snap, path: seq<Step>, x: PageId, weak: set<PageId>) {
      weak <= {x} + (if HasRight(v, path) then {RightOf(v, path)} else {})
    }

    /** The pages that a leaf, its parent and its right sibling are. */
    static lemma LeafFamily(v: Snap, weak: set<PageId>, path: seq<Step>, z: PageId)
      requires Inv(v, weak) && PathOk(v, path, z) && |path| > 0 && z in v.pages && v.pages[z].Leaf?
      requires WeakNear(v, path, z, weak)
      ensures var w, i := Last(path).pid, Last(path).idx;
              && HasLeaf(v, w, i) && v.pages[w].kids[i] == z && !v.pages[z].isRoot
              && Count(v.pages[w]) <= 2 * v.degree - 1
              && (i + 1 < |v.pages[w].kids| ==>
                    && HasRight(v, path) && HasLeaf(v, w, i + 1)
                    && RightOf(v, path) != z && !v.pages[RightOf(v, path)].isRoot)
    {
      LastStep(v, weak, path, z);
      var w, i := Last(path).pid, Last(path).idx;
      if i + 1 < |v.pages[w].kids| {
        assert KidOk(v, w, i + 1);
        assert NodeOk(v, v.pages[w].kids[i + 1]);
      }
      assert Full(v, w);
    }

    static lemma LowestEntry(es: seq<Entry>)
      requires AscendingEntries(es) && es != []
      ensures es[0].key in KeySet(es) && forall q :: q in KeySet(es) ==> Rank(es[0].key) <= Rank(q)
    {
    }

    static lemma ShareLeavesPlan(v: Snap, weak: set<PageId>, path: seq<Step>, z: PageId, cut: nat) returns (v': Snap)
      requires Inv(v, weak) && PathOk(v, path, z) && z in v.pages && v.pages[z].Leaf?
      requires WeakNear(v, path, z, weak) && HasRight(v, path) && v.pages[RightOf(v, path)].Leaf?
      requires Fitting(|v.pages[z].entries| + Count(v.pages[RightOf(v, path)]), cut, v.degree - 1, 2 * v.degree - 1)
      ensures Inv(v', {}) && PathOk(v', path, z)
      ensures var b, w, i := RightOf(v, path), Last(path).pid, Last(path).idx;
              var es := v.pages[z].entries + v.pages[b].entries;
              && i < |v.pages[w].seps|
              && v'.pages == v.pages[z := Leaf(es[..cut], At(b), false)]
                            [b := Leaf(es[cut..], v.pages[b].next, false)]
                            [w := Internal(v.pages[w].seps[i := es[cut].key], v.pages[w].kids, v.pages[w].isRoot)]
              && z in v'.info && es[0].key in v'.info[z].keys
              && (forall q :: q in v'.info[z].keys ==> Rank(es[0].key) <= Rank(q))
      ensures v'.contents == v.contents && v'.degree == v.degree && v'.root == v.root && v'.height == v.height
      ensures LinkAt(v'.leaves, 0) == LinkAt(v.leaves, 0)
      ensures v'.info.Keys == v.info.Keys
    {
      LeafFamily(v, weak, path, z);
      v' := ShareLeaves(v, weak, Last(path).pid, Last(path).idx, cut);
      PathSame(v, v', path, z);
      assert NodeOk(v', z);
      LowestEntry(v'.pages[z].entries);
    }

    /** A first write that a second one hides. */
    static lemma Hidden<K, V>(m: map<K, V>, z: K, x: V, a: V)
      ensures m[z := x][z := a] == m[z := a]
    {
    }

    /** Sharing the entries of leaf z and of its right sibling, if both parts can have proper size. */
    method RedistributeLeafWithRightSibling(z: PageId, path: seq<Step>, entries: seq<Entry>,
                                            ghost v: Snap, ghost weak: set<PageId>)
      returns (done: bool)
      requires Shows(v, z) && Inv(v, weak) && PathOk(v, path, z) && WeakNear(v, path, z, weak)
      requires pages[z].Leaf? && v.pages[z] == pages[z].(entries := entries)
      modifies this
      ensures done ==> Almost({}) && Contents == v.contents
      ensures !done ==> unchanged(this)
      ensures done <==>
                && HasRight(v, path)
                && 2 * (degree - 1) <= |entries| + Count(v.pages[RightOf(v, path)]) <= 2 * (2 * degree - 1)
    {
      if path == [] {
        return false;
      }
      LeafFamily(v, weak, path, z);
      var w, i := Last(path).pid, Last(path).idx;
      var parent := pages[w];
      if i + 1 >= |parent.kids| {
        return false;
      }
      var right := parent.kids[i + 1];
      var combined := entries + pages[right].entries;
      var split := ChooseBalancedSplit(|combined|, degree - 1, 2 * degree - 1);
      if split.None? {
        return false;
      }
      ghost var v' := ShareLeavesPlan(v, weak, path, z, split.value);
      WriteSharedLeaves(z, right, w, i, combined, split.value);
      Hidden(old(pages), z, v.pages[z], pages[z]);
      assert pages == v'.pages;
      Adopt(v', {});
      done := true;
      if i == 0 {
        UpdateParentSeparator(path, combined[0].key, z, {});
      }
    }

    method WriteSharedLeaves(z: PageId, right: PageId, w: PageId, i: nat, combined: seq<Entry>, cut: nat)
      requires {z, right, w} <= pages.Keys && Disk() && EntriesFit(combined)
      requires pages[z].Leaf? && pages[right].Leaf? && pages[w].Internal? && z != right
      requires i < |pages[w].seps| <= 2 * degree - 1 && cut < |combined| && cut <= 2 * degree - 1 &&
               |combined| - cut <= 2 * degree - 1
      modifies this`pages
      ensures Disk()
      ensures pages == old(pages)[z := Leaf(combined[..cut], At(right), old(pages[z].isRoot))]
                                 [right := Leaf(combined[cut..], old(pages[right].next), old(pages[right].isRoot))]
                                 [w := Internal(old(pages[w].seps)[i := combined[cut].key], old(pages[w].kids),
                                     old(pages[w].isRoot))]
    {
      var current, rightLeaf, parent := pages[z], pages[right], pages[w];
      WriteNode(z, Leaf(combined[..cut], At(right), current.isRoot));
      WriteNode(right, Leaf(combined[cut..], rightLeaf.next, rightLeaf.isRoot));
      WriteNode(w, Internal(parent.seps[i := combined[cut].key], parent.kids, parent.isRoot));
    }

    /** The most even choice of a middle key that leaves `spare` others, in parts of acceptable size, the first
        of equals. */
    static method ChooseMiddle(spare: nat, least: nat, most: nat) returns (best: Option<nat>)
      ensures best.Some? <==> 2 * least <= spare <= 2 * most
      ensures best.Some? ==>
                && best.value <= spare && Fitting(spare, best.value, least, most)
                && forall k :: Fitting(spare, k, least, most) ==>
                     && Distance(best.value, spare - best.value) <= Distance(k, spare - k)
                     && (k < best.value ==> Distance(best.value, spare - best.value) < Distance(k, spare - k))
    {
      best := None;
      var middle := least;
      while middle <= spare
        invariant least <= middle
        invariant best.None? ==> forall k :: least <= k < middle ==> !Fitting(spare, k, least, most)
        invariant best.Some? ==>
                    && best.value <= spare && best.value < middle && Fitting(spare, best.value, least, most)
                    && forall k :: k < middle && Fitting(spare, k, least, most) ==>
                         && Distance(best.value, spare - best.value) <= Distance(k, spare - k)
                         && (k < best.value ==> Distance(best.value, spare - best.value) < Distance(k, spare - k))
      {
        var rightCount := spare - middle;
        if !(middle > most || rightCount < least || rightCount > most) {
          if best.None? || Distance(middle, rightCount) < Distance(best.value, spare - best.value) {
            best := Some(middle);
          }
        }
        middle := middle + 1;
      }
      assert 2 * least <= spare <= 2 * most ==> Fitting(spare, spare / 2, least, most);
    }

    /** The pages that an internal page, its parent and its right sibling are. */
    static lemma ForkFamily(v: Snap, weak: set<PageId>, path: seq<Step>, z: PageId)
      requires Inv(v, weak) && PathOk(v, path, z) && |path| > 0 && z in v.pages && v.pages[z].Internal?
      requires WeakNear(v, path, z, weak)
      ensures var w, i := Last(path).pid, Last(path).idx;
              && HasFork(v, w, i) && v.pages[w].kids[i] == z && !v.pages[z].isRoot && z != w
              && Count(v.pages[w]) <= 2 * v.degree - 1
              && (i + 1 < |v.pages[w].kids| ==>
                    && HasRight(v, path) && HasFork(v, w, i + 1)
                    && RightOf(v, path) != z && RightOf(v, path) != w && !v.pages[RightOf(v, path)].isRoot)
    {
      LastStep(v, weak, path, z);
      var w, i := Last(path).pid, Last(path).idx;
      if i + 1 < |v.pages[w].kids| {
        assert KidOk(v, w, i + 1);
        assert NodeOk(v, v.pages[w].kids[i + 1]);
      }
      assert Full(v, w);
    }

    /** All children of a page of a well-formed index can be rewritten. */
    static ghost predicate Rewritable(p: PageFile, kids: seq<PageId>, degree: Degree) {
      forall c :: c in kids ==> c in p && Count(p[c]) <= 2 * degree - 1
    }

    static lemma KidsRewritable(s: Snap, weak: set<PageId>, x: PageId)
      requires Inv(s, weak) && x in s.info && x in s.pages && s.pages[x].Internal?
      requires forall y :: y in s.info && y in weak ==> s.info[y].height >= s.info[x].height
      ensures Rewritable(s.pages, s.pages[x].kids, s.degree)
    {
      assert NodeOk(s, x);
      KidUps(s, x);
      forall c | c in s.pages[x].kids
        ensures c in s.pages && Count(s.pages[c]) <= 2 * s.degree - 1
      {
        assert Full(s, c);
      }
    }

    static lemma ShareForksPlan(v: Snap, weak: set<PageId>, path: seq<Step>, z: PageId, mid: nat) returns (v': Snap)
      requires Inv(v, weak) && PathOk(v, path, z) && z in v.pages && v.pages[z].Internal?
      requires WeakNear(v, path, z, weak) && HasRight(v, path) && v.pages[RightOf(v, path)].Internal?
      requires Fitting(|v.pages[z].seps| + Count(v.pages[RightOf(v, path)]), mid, v.degree - 1, 2 * v.degree - 1)
      ensures Inv(v', {})
      ensures var b, w, i := RightOf(v, path), Last(path).pid, Last(path).idx;
              && i < |v.pages[w].seps|
              && var seps := v.pages[z].seps + [v.pages[w].seps[i]] + v.pages[b].seps;
              var kids := v.pages[z].kids + v.pages[b].kids;
              && |kids| == |seps| + 1
              && v'.pages == v.pages[z := Internal(seps[..mid], kids[..mid + 1], false)]
                            [b := Internal(seps[mid + 1..], kids[mid + 1..], false)]
                            [w := Internal(v.pages[w].seps[i := seps[mid]], v.pages[w].kids, v.pages[w].isRoot)]
              && Rewritable(v'.pages, kids[..mid + 1], v.degree) && Rewritable(v'.pages, kids[mid + 1..], v.degree)
      ensures v'.contents == v.contents && v'.degree == v.degree && v'.root == v.root && v'.height == v.height
      ensures LinkAt(v'.leaves, 0) == LinkAt(v.leaves, 0)
    {
      ForkFamily(v, weak, path, z);
      var b := RightOf(v, path);
      v' := ShareForks(v, weak, Last(path).pid, Last(path).idx, mid);
      assert NodeOk(v, z) && NodeOk(v, b);
      KidsRewritable(v', {}, z);
      KidsRewritable(v', {}, b);
    }

    /** Sharing the children of internal page z and of its right sibling, if both parts can have proper size. */
    method RedistributeInternalWithRightSibling(z: PageId, path: seq<Step>, seps: seq<Value>, kids: seq<PageId>,
                                                ghost v: Snap, ghost weak: set<PageId>)
      returns (done: bool)
      requires Shows(v, z) && Inv(v, weak) && PathOk(v, path, z) && WeakNear(v, path, z, weak)
      requires pages[z].Internal? && v.pages[z] == Internal(seps, kids, pages[z].isRoot)
      modifies this
      ensures done ==> Almost({}) && Contents == v.contents
      ensures !done ==> unchanged(this)
      ensures done <==>
                && HasRight(v, path)
                && 2 * (degree - 1) <= |seps| + Count(v.pages[RightOf(v, path)]) <= 2 * (2 * degree - 1)
    {
      if path == [] {
        return false;
      }
      ForkFamily(v, weak, path, z);
      var w, i := Last(path).pid, Last(path).idx;
      var parent := pages[w];
      if i + 1 >= |parent.kids| {
        return false;
      }
      var right := parent.kids[i + 1];
      var allSeps := seps + [parent.seps[i]] + pages[right].seps;
      var allKids := kids + pages[right].kids;
      var middle := ChooseMiddle(|allSeps| - 1, degree - 1, 2 * degree - 1);
      if middle.None? {
        return false;
      }
      ShareForksAt(z, right, w, i, allSeps, allKids, middle.value, path, v, weak);
      done := true;
    }

    /** Writing both nodes, their parent and their children, cut at a middle key that fits. */
    method ShareForksAt(z: PageId, right: PageId, w: PageId, i: nat, seps: seq<Value>, kids: seq<PageId>, mid: nat,
                        ghost path: seq<Step>, ghost v: Snap, ghost weak: set<PageId>)
      requires Shows(v, z) && Inv(v, weak) && PathOk(v, path, z) && WeakNear(v, path, z, weak) && HasRight(v, path)
      requires pages[z].Internal? && v.pages[z].Internal? && v.pages[z].isRoot == pages[z].isRoot
      requires right == RightOf(v, path) && Last(path) == Step(w, i) && w in v.pages && v.pages[w].Internal? &&
               i < |v.pages[w].seps|
      requires right in v.pages && v.pages[right].Internal?
      requires seps == v.pages[z].seps + [v.pages[w].seps[i]] + v.pages[right].seps &&
               kids == v.pages[z].kids + v.pages[right].kids
      requires Fitting(|seps| - 1, mid, degree - 1, 2 * degree - 1)
      modifies this
      ensures Almost({}) && Contents == v.contents
    {
      ForkFamily(v, weak, path, z);
      ghost var v' := ShareForksPlan(v, weak, path, z, mid);
      WriteSharedForks(z, right, w, i, seps, kids, mid);
      Hidden(old(pages), z, v.pages[z], pages[z]);
      assert pages == v'.pages;
      RewriteBoth(kids, mid);
      Adopt(v', {});
    }

    method RewriteBoth(kids: seq<PageId>, mid: nat)
      requires mid + 1 <= |kids| && Disk()
      requires Rewritable(pages, kids[..mid + 1], degree) && Rewritable(pages, kids[mid + 1..], degree)
      modifies this`pages
      ensures Disk()
      ensures pages == old(pages)
    {
      RewriteChildren(kids[..mid + 1]);
      RewriteChildren(kids[mid + 1..]);
    }

    method WriteSharedForks(z: PageId, right: PageId, w: PageId, i: nat, seps: seq<Value>, kids: seq<PageId>, mid: nat)
      requires {z, right, w} <= pages.Keys && Disk() && SepsFit(seps)
      requires pages[z].Internal? && pages[right].Internal? && pages[w].Internal? && z != right && z != w && right != w
      requires i < |pages[w].seps| <= 2 * degree - 1
      requires mid < |seps| && |kids| == |seps| + 1 && mid <= 2 * degree - 1 && |seps| - mid - 1 <= 2 * degree - 1
      modifies this`pages
      ensures Disk()
      ensures pages == old(pages)[z := Internal(seps[..mid], kids[..mid + 1], old(pages[z].isRoot))]
                                 [right := Internal(seps[mid + 1..], kids[mid + 1..], old(pages[right].isRoot))]
                                 [w := Internal(old(pages[w].seps)[i := seps[mid]], old(pages[w].kids),
                                     old(pages[w].isRoot))]
    {
      var current, rightNode, parent := pages[z], pages[right], pages[w];
      WriteNode(z, Internal(seps[..mid], kids[..mid + 1], current.isRoot));
      WriteNode(right, Internal(seps[mid + 1..], kids[mid + 1..], rightNode.isRoot));
      WriteNode(w, Internal(parent.seps[i := seps[mid]], parent.kids, parent.isRoot));
    }

    // ---------- insertion ----------

    /** Splitting leaf z, which has one entry too many. */
    method SplitLeaf(z: PageId, path: seq<Step>, entries: seq<Entry>, ghost v: Snap)
      requires Shows(v, z) && Inv(v, {z}) && PathOk(v, path, z)
      requires pages[z].Leaf? && v.pages[z] == pages[z].(entries := entries)
      requires |entries| == 2 * degree
      modifies this
      ensures Almost({}) && Contents == v.contents
    {
      var right := AllocateNodePage();
      if path == [] {
        SplitLeafAtRoot(z, entries, right, v);
      } else {
        SplitLeafBelow(z, path, entries, right, v);
      }
    }

    /** The index v, and page r, which is allocated but not in use. */
    ghost predicate Spare(v: Snap, r: PageId)
      reads this
    {
      0 < r < pageCount && r !in pages
    }

    /** A new root page above two pages. */
    method WriteRoot(top: PageId, sep: Value, left: PageId, right: PageId)
      requires 0 < top < pageCount && Disk() && ValidKey(sep)
      modifies this`pages, this`root, this`height
      ensures Disk()
      ensures pages == old(pages)[top := Internal([sep], [left, right], true)]
      ensures root == At(top) && height == old(height) + 1
    {
      WriteNode(top, Internal([sep], [left, right], true));
      root, height := At(top), height + 1;
    }

    method SplitLeafAtRoot(z: PageId, entries: seq<Entry>, right: PageId, ghost v: Snap)
      requires Shows(v, z) && Inv(v, {z}) && v.root == z && Spare(v, right)
      requires pages[z].Leaf? && v.pages[z] == pages[z].(entries := entries)
      requires |entries| == 2 * degree
      modifies this
      ensures Almost({}) && Contents == v.contents
    {
      var top := AllocateNodePage();
      assert NodesOnDisk(v, right) && NodesOnDisk(v, top) by { Nodes(v, {z}); }
      ghost var v' := SplitRootLeaf(v, z, right, top);
      var next := pages[z].next;
      WriteNode(z, Leaf(entries[..degree], At(right), false));
      WriteNode(right, Leaf(entries[degree..], next, false));
      Hidden(old(pages), z, v.pages[z], Leaf(entries[..degree], At(right), false));
      assert pages[top := v'.pages[top]] == v'.pages;
      WriteRoot(top, entries[degree].key, z, right);
      firstLeaf := At(z);
      WriteMetadata();
      Adopt(v', {});
    }

    static ghost predicate NodesOnDisk(v: Snap, r: PageId) {
      r !in v.pages ==> r !in v.info
    }

    /** Pages of the tree are on disk. */
    static lemma Nodes(v: Snap, weak: set<PageId>)
      requires Inv(v, weak)
      ensures forall x :: x in v.info ==> x in v.pages
    {
      forall x | x in v.info
        ensures x in v.pages
      {
        assert NodeOk(v, x);
      }
    }

    method SplitLeafBelow(z: PageId, path: seq<Step>, entries: seq<Entry>, right: PageId, ghost v: Snap)
      requires Shows(v, z) && Inv(v, {z}) && PathOk(v, path, z) && |path| > 0 && Spare(v, right)
      requires pages[z].Leaf? && v.pages[z] == pages[z].(entries := entries)
      requires |entries| == 2 * degree
      modifies this
      ensures Almost({}) && Contents == v.contents
    {
      assert NodesOnDisk(v, right) by { Nodes(v, {z}); }
      LastStep(v, {z}, path, z);
      ghost var v' := SplitLeafUnder(v, path, z, right);
      var next := pages[z].next;
      WriteNode(z, Leaf(entries[..degree], At(right), false));
      WriteNode(right, Leaf(entries[degree..], next, false));
      Hidden(old(pages), z, v.pages[z], Leaf(entries[..degree], At(right), false));
      var w, i := Last(path).pid, Last(path).idx;
      assert pages[w := v'.pages[w]] == v'.pages;
      InsertIntoInternal(w, Front(path), i, entries[degree].key, right, v');
    }

    /** Adding separator `sep` and the child to its right to internal page w. */
    method InsertIntoInternal(w: PageId, path: seq<Step>, i: nat, sep: Value, right: PageId, ghost v: Snap)
      requires Shows(v, w) && Inv(v, {w}) && Rich(v, w) && PathOk(v, path, w)
      requires pages[w].Internal? && i <= |pages[w].seps| && |pages[w].kids| == |pages[w].seps| + 1
      requires v.pages[w] == Internal(InsertAt(pages[w].seps, i, sep), InsertAt(pages[w].kids, i + 1, right),
               pages[w].isRoot)
      requires Count(v.pages[w]) <= 2 * degree && right in v.info && right != w
      modifies this
      ensures Almost({}) && Contents == v.contents
      decreases |path|, 2
    {
      var seps := InsertAt(pages[w].seps, i, sep);
      var kids := InsertAt(pages[w].kids, i + 1, right);
      if |seps| <= 2 * degree - 1 {
        WriteNode(w, Internal(seps, kids, pages[w].isRoot));
        assert Full(v, right);
        RewriteChildren([right]);
        Strengthen(v, {w}, {});
        Adopt(v, {});
        return;
      }
      var redistributed := RedistributeInternalWithRightSibling(w, path, seps, kids, v, {w});
      if redistributed {
        return;
      }
      SplitInternal(w, path, seps, kids, v);
    }

    /** Splitting internal page z, which has one separator too many. */
    method SplitInternal(z: PageId, path: seq<Step>, seps: seq<Value>, kids: seq<PageId>, ghost v: Snap)
      requires Shows(v, z) && Inv(v, {z}) && Rich(v, z) && PathOk(v, path, z)
      requires pages[z].Internal? && v.pages[z] == Internal(seps, kids, pages[z].isRoot)
      requires |seps| == 2 * degree
      modifies this
      ensures Almost({}) && Contents == v.contents
      decreases |path|, 1
    {
      assert NodeOk(v, z);
      var right := AllocateNodePage();
      if path == [] {
        SplitInternalAtRoot(z, seps, kids, right, v);
      } else {
        SplitInternalBelow(z, path, seps, kids, right, v);
      }
    }

    /** Writing both halves of a split internal page, and their children as they are. */
    method WriteForkHalves(z: PageId, right: PageId, seps: seq<Value>, kids: seq<PageId>, mid: nat)
      requires 0 < z < pageCount && 0 < right < pageCount && z !in kids && right !in kids
      requires Disk() && SepsFit(seps)
      requires mid < |seps| && |kids| == |seps| + 1 && mid <= 2 * degree - 1 && |seps| - mid - 1 <= 2 * degree - 1
      requires Rewritable(pages, kids, degree)
      modifies this`pages
      ensures Disk()
      ensures pages == old(pages)[z := Internal(seps[..mid], kids[..mid + 1], false)]
                                 [right := Internal(seps[mid + 1..], kids[mid + 1..], false)]
    {
      WriteNode(z, Internal(seps[..mid], kids[..mid + 1], false));
      WriteNode(right, Internal(seps[mid + 1..], kids[mid + 1..], false));
      assert forall c :: c in kids[..mid + 1] || c in kids[mid + 1..] ==> c in kids;
      assert forall c :: c in kids ==> c in pages && pages[c] == old(pages)[c];
      RewriteBoth(kids, mid);
    }

    /** The children of page z of index v, on the disk that shows v. */
    lemma KidsOnDisk(v: Snap, z: PageId)
      requires Shows(v, z) && Inv(v, {z}) && z in v.info && v.pages[z].Internal?
      ensures Rewritable(pages, v.pages[z].kids, degree) && z !in v.pages[z].kids
    {
      assert NodeOk(v, z);
      KidUps(v, z);
      KidsRewritable(v, {z}, z);
    }

    method SplitInternalAtRoot(z: PageId, seps: seq<Value>, kids: seq<PageId>, right: PageId, ghost v: Snap)
      requires Shows(v, z) && Inv(v, {z}) && Rich(v, z) && v.root == z && Spare(v, right)
      requires pages[z].Internal? && v.pages[z] == Internal(seps, kids, pages[z].isRoot)
      requires |seps| == 2 * degree && |kids| == 2 * degree + 1
      modifies this
      ensures Almost({}) && Contents == v.contents
    {
      var top := AllocateNodePage();
      assert NodesOnDisk(v, right) && NodesOnDisk(v, top) by { Nodes(v, {z}); }
      ghost var v' := SplitRootFork(v, z, right, top);
      KidsOnDisk(v, z);
      WriteForkHalves(z, right, seps, kids, degree - 1);
      Hidden(old(pages), z, v.pages[z], Internal(seps[..degree - 1], kids[..degree], false));
      assert pages[top := v'.pages[top]] == v'.pages;
      WriteRoot(top, seps[degree - 1], z, right);
      WriteMetadata();
      Adopt(v', {});
    }

    method SplitInternalBelow(z: PageId, path: seq<Step>, seps: seq<Value>, kids: seq<PageId>, right: PageId,
                              ghost v: Snap)
      requires Shows(v, z) && Inv(v, {z}) && PathOk(v, path, z) && |path| > 0 && Spare(v, right)
      requires pages[z].Internal? && v.pages[z] == Internal(seps, kids, pages[z].isRoot)
      requires |seps| == 2 * degree && |kids| == 2 * degree + 1
      modifies this
      ensures Almost({}) && Contents == v.contents
      decreases |path|, 0
    {
      assert NodesOnDisk(v, right) by { Nodes(v, {z}); }
      LastStep(v, {z}, path, z);
      ghost var v' := SplitForkUnder(v, path, z, right);
      KidsOnDisk(v, z);
      WriteForkHalves(z, right, seps, kids, degree - 1);
      Hidden(old(pages), z, v.pages[z], Internal(seps[..degree - 1], kids[..degree], false));
      var w, i := Last(path).pid, Last(path).idx;
      assert pages[w := v'.pages[w]] == v'.pages;
      InsertIntoInternal(w, Front(path), i, seps[degree - 1], right, v');
    }

    static lemma AddedAt(s: Snap, path: seq<Step>, z: PageId, key: Value, rid: nat) returns (v: Snap)
      requires Inv(s, {}) && PathOk(s, path, z) && Follows(s, path, z, key) && key !in s.contents
      requires z in s.pages && s.pages[z].Leaf?
      ensures var entries := InsertAt(s.pages[z].entries, LowerBound(s.pages[z].entries, key), Entry(key, rid));
              v.pages == s.pages[z := s.pages[z].(entries := entries)]
      ensures Inv(v, {z}) && PathOk(v, path, z)
      ensures v.degree == s.degree && v.contents == s.contents[key := rid] && v.root == s.root &&
              v.height == s.height && v.leaves == s.leaves
    {
      assert NodeOk(s, z);
      var pos := LowerBound(s.pages[z].entries, key);
      LowerBoundBetween(s.pages[z].entries, key);
      v := AddKeyTo(s, path, z, pos, key, rid);
      AddKey(s, path, z, pos, key, rid);
    }

    static lemma AddKeyPlan(s: Snap, path: seq<Step>, z: PageId, key: Value, rid: nat) returns (v: Snap)
      requires Inv(s, {}) && PathOk(s, path, z) && Follows(s, path, z, key) && key !in s.contents
      requires z in s.pages && s.pages[z].Leaf?
      ensures var entries := InsertAt(s.pages[z].entries, LowerBound(s.pages[z].entries, key), Entry(key, rid));
              && v.pages == s.pages[z := s.pages[z].(entries := entries)]
              && Inv(v, {z}) && PathOk(v, path, z)
              && |entries| <= 2 * s.degree
              && (|entries| < 2 * s.degree ==> Inv(v, {}))
              && z in v.info && entries[0].key in v.info[z].keys
              && forall q :: q in v.info[z].keys ==> Rank(entries[0].key) <= Rank(q)
      ensures v.degree == s.degree && v.contents == s.contents[key := rid] && v.root == s.root &&
              v.height == s.height && v.leaves == s.leaves
    {
      assert NodeOk(s, z) && Full(s, z);
      v := AddedAt(s, path, z, key, rid);
      assert NodeOk(v, z);
      LowestEntry(v.pages[z].entries);
      if |v.pages[z].entries| < 2 * s.degree { Strengthen(v, {z}, {}); }
    }

    method InsertIntoLeaf(z: PageId, path: seq<Step>, key: Value, rid: nat)
      requires Almost({}) && PathOk(S(), path, z) && Follows(S(), path, z, key) && key !in Contents
      requires z in pages && pages[z].Leaf? && ValidKey(key)
      modifies this
      ensures Almost({}) && Contents == old(Contents)[key := rid]
    {
      var leaf := pages[z];
      var pos := LowerBound(leaf.entries, key);
      var entries := InsertAt(leaf.entries, pos, Entry(key, rid));
      ghost var v := AddKeyPlan(S(), path, z, key, rid);
      if |entries| <= 2 * degree - 1 {
        WriteNode(z, Leaf(entries, leaf.next, leaf.isRoot));
        Adopt(v, {});
        if pos == 0 {
          UpdateParentSeparator(path, entries[0].key, z, {});
        }
        return;
      }
      var redistributed := RedistributeLeafWithRightSibling(z, path, entries, v, {z});
      if redistributed {
        return;
      }
      SplitLeaf(z, path, entries, v);
    }

    /** The bytes that a key takes in a page. */
    static function EncodedSize(key: Value): nat {
      match key
      case Null => 0
      case Int(_) => 8
      case Str(s) => |s|
      case Bool(_) => 1
    }

    predicate ValidKey(key: Value) {
      !key.Null? && TypeOf(key) == keyType && EncodedSize(key) <= maxKeyBytes
    }

    method Insert(key: Value, rid: nat) returns (status: Status)
      requires Valid()
      modifies this
      ensures Valid()
      ensures status == if !ValidKey(key) then InvalidArgument else if key in old(Contents) then AlreadyExists else Ok
      ensures Contents == if status.Ok? then old(Contents)[key := rid] else old(Contents)
    {
      if !ValidKey(key) {
        return InvalidArgument;
      }
      if root.NoPage? {
        var x := AllocateNodePage();
        WriteNode(x, Leaf([Entry(key, rid)], NoPage, true));
        root, firstLeaf, height := At(x), At(x), 1;
        WriteMetadata();
        ghost var s := Singleton(degree, pages, x, key, rid);
        Adopt(s, {});
        return Ok;
      }
      var path, z, existing := FindPathToLeaf(key);
      if existing.Some? {
        return AlreadyExists;
      }
      InsertIntoLeaf(z, path, key, rid);
      return Ok;
    }

    // ---------- deletion ----------

    /** Joining leaf z with its right sibling; the parent may then need the same treatment. */
    method MergeLeafWithRightSibling(z: PageId, path: seq<Step>, ghost weak: set<PageId>)
      requires Almost(weak) && PathOk(S(), path, z) && WeakNear(S(), path, z, weak) && HasRight(S(), path)
      requires z in pages && pages[z].Leaf?
      requires degree - 1 <= Count(pages[z]) + Count(pages[RightOf(S(), path)]) <= 2 * degree - 1
      modifies this
      ensures Almost({}) && Contents == old(Contents)
      decreases |path|, 0
    {
      ghost var s := S();
      LeafFamily(s, weak, path, z);
      var w, i := Last(path).pid, Last(path).idx;
      var parent, right := pages[w], pages[w].kids[i + 1];
      var entries, next := pages[z].entries + pages[right].entries, pages[right].next;
      ghost var v := JoinLeaves(s, weak, path, w, i, z, right);
      WriteNode(z, Leaf(entries, next, pages[z].isRoot));
      assert v.pages == pages[w := v.pages[w]];
      var seps, kids := RemoveAt(parent.seps, i), RemoveAt(parent.kids, i + 1);
      if parent.isRoot && seps == [] {
        MergedIntoRoot(s, v, w, i);
        firstLeaf := At(z);
        BecomeRoot(z, 1, v);
        return;
      }
      RemoveFromParent(w, Front(path), i, s, v);
    }

    /** Dropping separator i and the child to its right from page w, whose children i and i+1 were joined. */
    method RemoveFromParent(w: PageId, path: seq<Step>, i: nat, ghost s: Snap, ghost v: Snap)
      requires Shows(v, w) && Inv(v, {w}) && PathOk(v, path, w) && Full(s, w) && s.degree == degree &&
               v.info[w].keys != {}
      requires pages[w] == s.pages[w] && pages[w].Internal? && i < |pages[w].seps| &&
               |pages[w].kids| == |pages[w].seps| + 1
      requires v.pages[w] == Internal(RemoveAt(pages[w].seps, i), RemoveAt(pages[w].kids, i + 1), pages[w].isRoot)
      requires s.root == v.root
      requires !(pages[w].isRoot && |pages[w].seps| == 1)
      modifies this
      ensures Almost({}) && Contents == v.contents
      decreases |path|, 3
    {
      assert NodeOk(v, w);
      var seps, kids, isRoot := RemoveAt(pages[w].seps, i), RemoveAt(pages[w].kids, i + 1), pages[w].isRoot;
      WriteNode(w, Internal(seps, kids, isRoot));
      if !isRoot && |seps| < degree - 1 {
        Adopt(v, {w});
        BelowRoot(v, path, w);
        RebalanceAfterDelete(w, path);
      } else {
        ParentKept(s, v, w);
        Adopt(v, {});
      }
    }

    static lemma HeightAbove(v: Snap, w: PageId)
      requires Inv(v, {w}) && v.root == w && w in v.pages && v.pages[w].Internal?
      ensures v.height > 1
    {
      assert NodeOk(v, w);
    }

    /** Page z, the only child of the root, takes its place. */
    method BecomeRoot(z: PageId, newHeight: nat, ghost v: Snap)
      requires Inv(v, {v.root}) && v.root in v.pages && v.pages[v.root].Internal? && v.pages[v.root].seps == [] &&
               v.pages[v.root].kids == [z]
      requires v.root in pages && v.pages == pages[v.root := v.pages[v.root]] && degree == v.degree && z != v.root &&
               z in pages
      requires Disk() && Count(pages[z]) <= 2 * degree - 1
      requires if pages[z].Leaf? then newHeight == 1 && firstLeaf == At(z)
               else newHeight + 1 == v.height && firstLeaf == LinkAt(v.leaves, 0)
      modifies this
      ensures Almost({}) && Contents == v.contents
    {
      ghost var v' := Promote(v, z, pages);
      WriteNode(z, AsRoot(pages[z], true));
      root, height := At(z), newHeight;
      WriteMetadata();
      Adopt(v', {});
    }

    /** A root that lost its only separator has the joined page as its only child. */
    static lemma MergedIntoRoot(s: Snap, v: Snap, w: PageId, i: nat)
      requires LeafMerge(s, v, w, i) || ForkMerge(s, v, w, i)
      requires v.pages[w].seps == [] && NodeOk(s, w) && s.pages[w].isRoot
      ensures w == v.root && v.pages[w].kids == [s.pages[w].kids[i]]
    {
      assert |v.pages[w].kids| == 1;
    }

    /** A parent that still has enough separators. */
    static lemma ParentKept(s: Snap, v: Snap, w: PageId)
      requires Inv(v, {w}) && Full(s, w) && w in v.pages && Count(v.pages[w]) <= Count(s.pages[w]) &&
               v.degree == s.degree
      requires w in v.info && v.info[w].keys != {} && NodeOk(v, w)
      requires if v.pages[w].isRoot then Count(v.pages[w]) > 0 else Count(v.pages[w]) >= s.degree - 1
      ensures Inv(v, {})
    {
      Strengthen(v, {w}, {});
    }

    /** Joining internal page z with its right sibling and the separator between them. */
    method MergeInternalWithRightSibling(z: PageId, path: seq<Step>, ghost weak: set<PageId>)
      requires Almost(weak) && PathOk(S(), path, z) && WeakNear(S(), path, z, weak) && HasRight(S(), path)
      requires z in pages && pages[z].Internal?
      requires degree - 1 <= Count(pages[z]) + 1 + Count(pages[RightOf(S(), path)]) <= 2 * degree - 1
      modifies this
      ensures Almost({}) && Contents == old(Contents)
      decreases |path|, 0
    {
      ghost var s := S();
      ForkFamily(s, weak, path, z);
      var w, i := Last(path).pid, Last(path).idx;
      var parent, right := pages[w], pages[w].kids[i + 1];
      var joined := pages[z].seps + [parent.seps[i]] + pages[right].seps;
      var below := pages[z].kids + pages[right].kids;
      ghost var v := JoinForks(s, weak, path, w, i, z, right);
      WriteNode(z, Internal(joined, below, pages[z].isRoot));
      assert v.pages == pages[w := v.pages[w]];
      JoinedKids(s, v, w, i);
      RewriteChildren(below);
      var seps, kids := RemoveAt(parent.seps, i), RemoveAt(parent.kids, i + 1);
      if parent.isRoot && seps == [] {
        MergedIntoRoot(s, v, w, i);
        HeightAbove(v, w);
        BecomeRoot(z, height - 1, v);
        return;
      }
      RemoveFromParent(w, Front(path), i, s, v);
    }

    static lemma JoinedKids(s: Snap, v: Snap, w: PageId, i: nat)
      requires ForkMerge(s, v, w, i) && Inv(v, {w}) && w in v.info
      ensures Rewritable(v.pages, v.pages[s.pages[w].kids[i]].kids, v.degree) && w !in v.pages[s.pages[w].kids[i]].kids
    {
      var a := s.pages[w].kids[i];
      assert NodeOk(v, a) && NodeOk(v, w);
      KidUps(v, a);
      assert v.info[a].parent == w;
      assert UpOk(v, a);
      KidUps(v, w);
      KidsRewritable(v, {w}, a);
    }

    /** A page with enough keys after all needs no repair. */
    static lemma EnoughKeys(s: Snap, x: PageId)
      requires Inv(s, {x}) && x in s.info && x in s.pages && s.degree - 1 <= Count(s.pages[x]) <= 2 * s.degree - 1
      ensures Inv(s, {})
    {
      assert NodeOk(s, x);
      if s.pages[x].Leaf? {
        assert s.pages[x].entries[0].key in KeySet(s.pages[x].entries);
      } else {
        KidUps(s, x);
        KidHasKeys(s, {x}, x);
      }
      Strengthen(s, {x}, {});
    }

    /** The siblings of an underfull page are of its kind and well filled. */
    static lemma Sibling(s: Snap, path: seq<Step>, x: PageId, j: nat)
      requires Inv(s, {x}) && PathOk(s, path, x) && |path| > 0
      requires HasKid(s, Last(path).pid, Last(path).idx) && j < |s.pages[Last(path).pid].kids| && j != Last(path).idx
      ensures var y := s.pages[Last(path).pid].kids[j];
              && y in s.pages && y in s.info && y != x
              && x in s.pages && s.pages[y].Leaf? == s.pages[x].Leaf?
              && s.degree - 1 <= Count(s.pages[y]) <= 2 * s.degree - 1
    {
      LastStep(s, {x}, path, x);
      var w := Last(path).pid;
      var y := s.pages[w].kids[j];
      assert KidOk(s, w, j) && NodeOk(s, y) && NodeOk(s, x);
      assert Full(s, y);
    }

    /** Repairing a page that is short of one key, with the help of a sibling. */
    method RebalanceAfterDelete(x: PageId, path: seq<Step>)
      requires Almost({x}) && PathOk(S(), path, x) && |path| > 0
      requires x in pages && degree <= Count(pages[x]) + 2 && Count(pages[x]) <= 2 * degree - 1
      modifies this
      ensures Almost({}) && Contents == old(Contents)
      decreases |path|, 2
    {
      if Count(pages[x]) >= degree - 1 {
        EnoughKeys(S(), x);
        return;
      }
      LastStep(S(), {x}, path, x);
      var w, i := Last(path).pid, Last(path).idx;
      if i + 1 < |pages[w].kids| {
        RebalanceWithRight(x, path);
      } else {
        assert Full(S(), w);
        RebalanceWithLeft(x, path);
      }
    }

    method RebalanceWithRight(x: PageId, path: seq<Step>)
      requires Almost({x}) && PathOk(S(), path, x) && |path| > 0
      requires HasKid(S(), Last(path).pid, Last(path).idx) && Last(path).idx + 1 < |pages[Last(path).pid].kids|
      requires x in pages && Count(pages[x]) + 2 == degree
      modifies this
      ensures Almost({}) && Contents == old(Contents)
      decreases |path|, 1
    {
      ghost var s := S();
      LastStep(s, {x}, path, x);
      Sibling(s, path, x, Last(path).idx + 1);
      if pages[x].Leaf? {
        var redistributed := RedistributeLeafWithRightSibling(x, path, pages[x].entries, s, {x});
        if !redistributed {
          MergeLeafWithRightSibling(x, path, {x});
        }
      } else {
        var redistributed := RedistributeInternalWithRightSibling(x, path, pages[x].seps, pages[x].kids, s, {x});
        if !redistributed {
          MergeInternalWithRightSibling(x, path, {x});
        }
      }
    }

    /** The path to the left sibling of the last page. */
    static function LeftPath(path: seq<Step>): seq<Step>
      requires |path| > 0 && Last(path).idx > 0
    {
      Front(path) + [Step(Last(path).pid, Last(path).idx - 1)]
    }

    static lemma LeftPathOk(s: Snap, weak: set<PageId>, path: seq<Step>, x: PageId)
      requires Inv(s, weak) && PathOk(s, path, x) && |path| > 0 && Last(path).idx > 0
      ensures HasKid(s, Last(path).pid, Last(path).idx - 1)
      ensures PathOk(s, LeftPath(path), s.pages[Last(path).pid].kids[Last(path).idx - 1])
      ensures HasRight(s, LeftPath(path)) && RightOf(s, LeftPath(path)) == x
    {
      LastStep(s, weak, path, x);
      var w, i := Last(path).pid, Last(path).idx;
      assert KidOk(s, w, i - 1);
      var y := s.pages[w].kids[i - 1];
      assert NodeOk(s, y);
      var left := LeftPath(path);
      assert Target(left, y, 0) == Target(path, x, 0);
      forall j: nat | j < |left|
        ensures StepOk(s, left, y, j)
      {
        assert StepOk(s, path, x, j);
      }
    }

    method RebalanceWithLeft(x: PageId, path: seq<Step>)
      requires Almost({x}) && PathOk(S(), path, x) && |path| > 0 && Last(path).idx > 0
      requires x in pages && Count(pages[x]) + 2 == degree
      modifies this
      ensures Almost({}) && Contents == old(Contents)
      decreases |path|, 1
    {
      ghost var s := S();
      LastStep(s, {x}, path, x);
      LeftPathOk(s, {x}, path, x);
      Sibling(s, path, x, Last(path).idx - 1);
      var left := pages[Last(path).pid].kids[Last(path).idx - 1];
      if pages[left].Leaf? {
        var redistributed := RedistributeLeafWithRightSibling(left, LeftPath(path), pages[left].entries, s, {x});
        if !redistributed {
          MergeLeafWithRightSibling(left, LeftPath(path), {x});
        }
      } else {
        var redistributed := RedistributeInternalWithRightSibling(left, LeftPath(path), pages[left].seps,
            pages[left].kids, s, {x});
        if !redistributed {
          MergeInternalWithRightSibling(left, LeftPath(path), {x});
        }
      }
    }

    static lemma DropKeyPlan(s: Snap, path: seq<Step>, z: PageId, key: Value) returns (v: Snap)
      requires Inv(s, {}) && PathOk(s, path, z) && Follows(s, path, z, key)
      requires z in s.pages && s.pages[z].Leaf? && key in KeySet(s.pages[z].entries)
      ensures LowerBound(s.pages[z].entries, key) < |s.pages[z].entries|
      ensures var entries := RemoveAt(s.pages[z].entries, LowerBound(s.pages[z].entries, key));
              && v.pages == s.pages[z := s.pages[z].(entries := entries)]
              && Inv(v, {z}) && PathOk(v, path, z)
              && z in v.info && AscendingEntries(entries) && v.info[z].keys == KeySet(entries)
      ensures Full(s, z) && s.pages[z].isRoot == (z == s.root)
      ensures v.degree == s.degree && v.contents == s.contents - {key} && v.root == s.root && v.height == s.height &&
              v.leaves == s.leaves
    {
      assert NodeOk(s, z) && Full(s, z);
      var pos := LowerBound(s.pages[z].entries, key);
      LowerBoundBetween(s.pages[z].entries, key);
      DropKey(s, path, z, pos);
      v := DropKeyFrom(s, path, z, pos);
      assert NodeOk(v, z);
    }

    /** The path to a page other than the root is not empty. */
    static lemma BelowRoot(s: Snap, path: seq<Step>, z: PageId)
      requires PathOk(s, path, z) && z != s.root
      ensures |path| > 0
    {
      assert Target(path, z, 0) == s.root;
    }

    method DeleteFromLeaf(z: PageId, path: seq<Step>, key: Value)
      requires Almost({}) && PathOk(S(), path, z) && Follows(S(), path, z, key)
      requires z in pages && pages[z].Leaf? && key in KeySet(pages[z].entries)
      modifies this
      ensures Contents == old(Contents) - {key}
      ensures root.At? ==> Almost({})
      ensures root.NoPage? ==> Sane() && firstLeaf.NoPage? && height == 0 && Contents == map[]
    {
      var leaf := pages[z];
      ghost var v := DropKeyPlan(S(), path, z, key);
      var pos := LowerBound(leaf.entries, key);
      var entries := RemoveAt(leaf.entries, pos);
      if leaf.isRoot {
        DeleteFromRootLeaf(z, entries, v);
      } else {
        WriteNode(z, Leaf(entries, leaf.next, leaf.isRoot));
        Adopt(v, {z});
        RepairLeaf(z, path, entries, pos == 0);
      }
    }

    method DeleteFromRootLeaf(z: PageId, entries: seq<Entry>, ghost v: Snap)
      requires Shows(v, z) && Inv(v, {z}) && v.root == z && pages[z].Leaf? &&
               v.pages[z] == pages[z].(entries := entries)
      requires z in v.info && v.info[z].keys == KeySet(entries) && |entries| <= 2 * degree - 1
      modifies this
      ensures Contents == v.contents
      ensures root.At? ==> Almost({})
      ensures root.NoPage? ==> Sane() && firstLeaf.NoPage? && height == 0 && Contents == map[]
    {
      if entries == [] {
        root, firstLeaf, height := NoPage, NoPage, 0;
        WriteMetadata();
        Contents := map[];
        assert v.contents.Keys == {};
        return;
      }
      WriteNode(z, Leaf(entries, pages[z].next, pages[z].isRoot));
      assert entries[0].key in KeySet(entries);
      Strengthen(v, {z}, {});
      Adopt(v, {});
    }

    /** After a deletion in leaf z: first the separator that names its smallest key, then its size. */
    method RepairLeaf(z: PageId, path: seq<Step>, entries: seq<Entry>, removedFirst: bool)
      requires Almost({z}) && PathOk(S(), path, z) && z != root.id
      requires z in pages && pages[z].Leaf? && pages[z].entries == entries && AscendingEntries(entries)
      requires info[z].keys == KeySet(entries) && degree - 2 <= |entries| <= 2 * degree - 1
      modifies this
      ensures Almost({}) && Contents == old(Contents)
    {
      if entries != [] && removedFirst {
        LowestEntry(entries);
        UpdateParentSeparator(path, entries[0].key, z, {z});
      }
      if |entries| < degree - 1 {
        BelowRoot(S(), path, z);
        RebalanceAfterDelete(z, path);
      } else {
        EnoughKeys(S(), z);
      }
    }

    method Delete(key: Value) returns (status: Status)
      requires Valid()
      modifies this
      ensures Valid()
      ensures status == if !ValidKey(key) then InvalidArgument else if key in old(Contents) then Ok else NotFound
      ensures Contents == if status.Ok? then old(Contents) - {key} else old(Contents)
    {
      if !ValidKey(key) {
        return InvalidArgument;
      }
      if root.NoPage? {
        return NotFound;
      }
      var path, z, existing := FindPathToLeaf(key);
      if existing.None? {
        return NotFound;
      }
      DeleteFromLeaf(z, path, key);
      return Ok;
    }

    // ---------- range scans ----------

    predicate ValidRange(range: KeyRange) {
      && (range.low.Some? ==> ValidKey(range.low.value))
      && (range.high.Some? ==> ValidKey(range.high.value))
      && !(range.low.Some? && range.high.Some? && Less(range.high.value, range.low.value))
    }

    static lemma NothingMore(es: seq<Entry>, i: nat, range: KeyRange, rest: seq<Entry>)
      requires AscendingEntries(es + rest) && i < |es| && PastHigh(es[i].key, range)
      ensures Hits(es + rest, range) == Hits(es[..i], range)
    {
      var done, todo := es[..i], es[i..] + rest;
      assert es + rest == done + todo && todo == (es + rest)[i..] && todo[0] == es[i];
      AscendingSuffix(es + rest, i);
      HitsEnd(todo, range);
      HitsConcat(done, todo, range);
    }

    static lemma OneMore(es: seq<Entry>, i: nat, range: KeyRange)
      requires i < |es|
      ensures Rids(Hits(es[..i + 1], range)) ==
              Rids(Hits(es[..i], range)) + if FitsInRange(es[i].key, range) then [es[i].rid] else []
    {
      assert es[..i + 1] == es[..i] + [es[i]];
      HitsConcat(es[..i], [es[i]], range);
    }

    /** Scanning one leaf; `stop` says that a key past the upper end was met. */
    static method ScanLeaf(es: seq<Entry>, range: KeyRange, ghost rest: seq<Entry>) returns (out: seq<nat>, stop: bool)
      requires AscendingEntries(es + rest)
      ensures stop ==> out == Rids(Hits(es + rest, range))
      ensures !stop ==> out == Rids(Hits(es, range))
    {
      out, stop := [], false;
      assert es[..0] == [];
      for i := 0 to |es|
        invariant out == Rids(Hits(es[..i], range))
      {
        if PastHigh(es[i].key, range) {
          NothingMore(es, i, range, rest);
          stop := true;
          return;
        }
        OneMore(es, i, range);
        if FitsInRange(es[i].key, range) {
          out := out + [es[i].rid];
        }
      }
      assert es[..|es|] == es;
    }

    /** One more leaf scanned. */
    static lemma ScanStep(out: seq<nat>, found: seq<nat>, es: seq<Entry>, rest: seq<Entry>, range: KeyRange,
                          total: seq<nat>)
      requires out + Rids(Hits(es + rest, range)) == total && found == Rids(Hits(es, range))
      ensures out + found + Rids(Hits(rest, range)) == total
    {
      HitsConcat(es, rest, range);
      assert Rids(Hits(es, range) + Hits(rest, range)) == Rids(Hits(es, range)) + Rids(Hits(rest, range));
    }

    /** Following the leaf chain from the leaf at position c. */
    static method ScanChain(pages: PageFile, start: Link, range: KeyRange, ghost s: Snap, ghost c: nat)
      returns (out: seq<nat>)
      requires pages == s.pages && Chained(s) && c <= |s.leaves| && start == LinkAt(s.leaves, c)
      ensures out == Rids(Hits(From(s, c), range))
    {
      ghost var total := Rids(Hits(From(s, c), range));
      out := [];
      var current := start;
      ghost var n := c;
      while current.At?
        invariant c <= n <= |s.leaves| && current == LinkAt(s.leaves, n)
        invariant out + Rids(Hits(From(s, n), range)) == total
        decreases |s.leaves| - n
      {
        var leaf := pages[current.id];
        ghost var rest := From(s, n + 1);
        assert From(s, n) == leaf.entries + rest;
        var found, stop := ScanLeaf(leaf.entries, range, rest);
        if stop {
          out := out + found;
          return;
        }
        ScanStep(out, found, leaf.entries, rest, range, total);
        out := out + found;
        current, n := leaf.next, n + 1;
      }
      assert From(s, n) == [] && Rids(Hits([], range)) == [];
      assert out + [] == out;
    }

    method RangeSearch(range: KeyRange) returns (status: Status, out: seq<nat>, ghost hits: seq<Entry>)
      requires Valid()
      ensures status == if ValidRange(range) then Ok else InvalidArgument
      ensures status.Ok? ==> Listing(Contents, range, hits, out)
    {
      out, hits := [], [];
      if !ValidRange(range) {
        return InvalidArgument, out, hits;
      }
      if root.NoPage? {
        return Ok, out, hits;
      }
      ghost var c := 0;
      var start := firstLeaf;
      if range.low.Some? {
        var path, z, existing := FindPathToLeaf(range.low.value);
        LeftOfLow(S(), {}, path, z, range);
        c := info[z].first;
        start := At(z);
      }
      ChainOfIndex(S(), {});
      out := ScanChain(pages, start, range, S(), c);
      hits := Hits(From(S(), 0), range);
      ScanIsListing(S(), {}, range, out);
      status := Ok;
    }
  }
}
