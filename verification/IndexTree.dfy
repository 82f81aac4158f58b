/** The shape of a B*-tree index, as the proofs see it.

    The index file holds pages that name each other by page id.  A `Snap` is one state
    of an index: its pages, and ghost knowledge about them.  For each page of the tree,
    `Info` records its height, the keys stored below it, its parent, and the range of
    positions its leaves take in the left-to-right list of leaves.  `NodeOk` is a
    condition on one page and its direct children only, so an operation has to be
    checked at the few pages it touches.
 */
module IndexTree {
  import opened Values

  type PageId = nat

  /** A page reference that may be absent (kInvalidPageIdValue in the file format). */
  datatype Link = NoPage | At(id: PageId)

  datatype Entry = Entry(key: Value, rid: nat)

  datatype Page =
    | Leaf(entries: seq<Entry>, next: Link, isRoot: bool)
    | Internal(seps: seq<Value>, kids: seq<PageId>, isRoot: bool)

  type PageFile = map<PageId, Page>

  /** The minimum degree t of a tree: nodes hold at most 2t-1 keys, non-root nodes at least t-1. */
  type Degree = d: nat | 2 <= d witness 2

  /** What is known about one page of the tree: its height (leaves have height 1), the keys
      stored in its subtree, its parent page, and the positions [first, end) of its leaves. */
  datatype Info = Info(height: nat, keys: set<Value>, parent: PageId, first: nat, end: nat)

  datatype Snap = Snap(
    degree: Degree,
    pages: PageFile,
    info: map<PageId, Info>,
    contents: map<Value, nat>,
    root: PageId,
    height: nat,
    leaves: seq<PageId>)

  function Count(page: Page): nat {
    match page
    case Leaf(es, _, _) => |es|
    case Internal(seps, _, _) => |seps|
  }

  ghost predicate Ascending(ks: seq<Value>) {
    forall i, j :: 0 <= i < j < |ks| ==> Rank(ks[i]) < Rank(ks[j])
  }

  ghost predicate AscendingEntries(es: seq<Entry>) {
    forall i, j :: 0 <= i < j < |es| ==> Rank(es[i].key) < Rank(es[j].key)
  }

  ghost function KeySet(es: seq<Entry>): set<Value> {
    set i | 0 <= i < |es| :: es[i].key
  }

  /** Key k belongs to child i of a node with separators `seps`. */
  ghost predicate InSlot(seps: seq<Value>, i: int, k: Value) {
    && 0 <= i <= |seps|
    && (i > 0 ==> Rank(seps[i - 1]) <= Rank(k))
    && (i < |seps| ==> Rank(k) < Rank(seps[i]))
  }

  ghost function LinkAt(leaves: seq<PageId>, i: nat): Link {
    if i < |leaves| then At(leaves[i]) else NoPage
  }

  ghost predicate LeafOk(s: Snap, x: PageId)
    requires x in s.pages && x in s.info && s.pages[x].Leaf?
  {
    var es := s.pages[x].entries;
    && s.info[x].height == 1
    && s.info[x].first < |s.leaves|
    && s.leaves[s.info[x].first] == x
    && s.info[x].end == s.info[x].first + 1
    && s.pages[x].next == LinkAt(s.leaves, s.info[x].first + 1)
    && AscendingEntries(es)
    && s.info[x].keys == KeySet(es)
    && (forall i :: 0 <= i < |es| ==> es[i].key in s.contents && s.contents[es[i].key] == es[i].rid)
  }

  /** Child i of page x is one level lower, with its leaves right after those of child i-1. */
  ghost predicate KidPlace(s: Snap, x: PageId, i: nat)
    requires x in s.pages && x in s.info && s.pages[x].Internal?
  {
    var kids := s.pages[x].kids;
    && i < |kids|
    && kids[i] in s.info
    && s.info[kids[i]].height + 1 == s.info[x].height
    && s.info[kids[i]].parent == x
    && (i == 0 ==> s.info[kids[i]].first == s.info[x].first)
    && (i + 1 == |kids| ==> s.info[kids[i]].end == s.info[x].end)
    && (i + 1 < |kids| ==> kids[i + 1] in s.info && s.info[kids[i]].end == s.info[kids[i + 1]].first)
  }

  /** Child i of page x holds exactly the keys of x that belong to slot i. */
  ghost predicate KidKeys(s: Snap, x: PageId, i: nat)
    requires x in s.pages && x in s.info && s.pages[x].Internal? && i < |s.pages[x].kids| &&
             s.pages[x].kids[i] in s.info
  {
    forall k :: k in s.info[s.pages[x].kids[i]].keys <==> k in s.info[x].keys && InSlot(s.pages[x].seps, i, k)
  }

  ghost predicate KidOk(s: Snap, x: PageId, i: nat)
    requires x in s.pages && x in s.info && s.pages[x].Internal?
  {
    KidPlace(s, x, i) && KidKeys(s, x, i)
  }

  ghost predicate InternalOk(s: Snap, x: PageId)
    requires x in s.pages && x in s.info && s.pages[x].Internal?
  {
    && s.info[x].height > 1
    && |s.pages[x].kids| == |s.pages[x].seps| + 1
    && Ascending(s.pages[x].seps)
    && (forall i, j :: 0 <= i < j < |s.pages[x].kids| ==> s.pages[x].kids[i] != s.pages[x].kids[j])
    && (forall i {:trigger KidOk(s, x, i)} :: 0 <= i < |s.pages[x].kids| ==> KidOk(s, x, i))
  }

  ghost predicate NodeOk(s: Snap, x: PageId) {
    && x in s.pages
    && x in s.info
    && s.pages[x].isRoot == (x == s.root)
    && (x != s.root ==> s.info[x].height < s.height)
    && s.info[x].first <= s.info[x].end
    && (s.pages[x].Leaf? ==> LeafOk(s, x))
    && (s.pages[x].Internal? ==> InternalOk(s, x))
  }

  /** At least t-1 keys in the page (one in the root), and some key below it. */
  ghost predicate Rich(s: Snap, x: PageId) {
    && x in s.pages
    && x in s.info
    && (if x == s.root then 1 else s.degree - 1) <= Count(s.pages[x])
    && s.info[x].keys != {}
  }

  /** Occupancy: at least t-1 and at most 2t-1 keys; the root needs only one. */
  ghost predicate Full(s: Snap, x: PageId) {
    Rich(s, x) && Count(s.pages[x]) <= 2 * s.degree - 1
  }

  /** Page x is among the children of its parent. */
  ghost predicate UpOk(s: Snap, x: PageId) {
    && x in s.info
    && s.info[x].parent in s.info
    && s.info[x].parent in s.pages
    && s.pages[s.info[x].parent].Internal?
    && x in s.pages[s.info[x].parent].kids
  }

  ghost predicate RootOk(s: Snap) {
    && s.root in s.info
    && s.info[s.root].height == s.height
    && s.info[s.root].first == 0
    && s.info[s.root].end == |s.leaves|
    && s.info[s.root].keys == s.contents.Keys
  }

  /** The pages form a B*-tree for the map `contents`; pages in `weak` may hold too few or too many keys. */
  ghost predicate Inv(s: Snap, weak: set<PageId>) {
    && RootOk(s)
    && (forall x {:trigger NodeOk(s, x)} :: x in s.info ==> NodeOk(s, x))
    && (forall x {:trigger Full(s, x)} :: x in s.info && x !in weak ==> Full(s, x))
    && (forall x {:trigger UpOk(s, x)} :: x in s.info && x != s.root ==> UpOk(s, x))
    && (forall i :: 0 <= i < |s.leaves| ==>
          s.leaves[i] in s.info && s.info[s.leaves[i]].first == i && s.info[s.leaves[i]].height == 1)
  }

  // ---------- search paths ----------

  datatype Step = Step(pid: PageId, idx: nat)

  /** The page that step j of a path leads to. */
  ghost function Target(path: seq<Step>, z: PageId, j: nat): PageId {
    if j < |path| then path[j].pid else z
  }

  ghost predicate StepOk(s: Snap, path: seq<Step>, z: PageId, j: nat) {
    && j < |path|
    && path[j].pid in s.info
    && path[j].pid in s.pages
    && s.pages[path[j].pid].Internal?
    && path[j].idx < |s.pages[path[j].pid].kids|
    && s.pages[path[j].pid].kids[path[j].idx] == Target(path, z, j + 1)
  }

  /** `path` is the list of pages and child positions that lead from the root to page z. */
  ghost predicate PathOk(s: Snap, path: seq<Step>, z: PageId) {
    && z in s.info
    && Target(path, z, 0) == s.root
    && (forall j {:trigger StepOk(s, path, z, j)} :: 0 <= j < |path| ==> StepOk(s, path, z, j))
  }

  /** Searching for k follows the path. */
  ghost predicate Follows(s: Snap, path: seq<Step>, z: PageId, k: Value)
    requires PathOk(s, path, z)
  {
    forall j {:trigger StepOk(s, path, z, j)} :: 0 <= j < |path| ==>
      StepOk(s, path, z, j) && InSlot(s.pages[path[j].pid].seps, path[j].idx, k)
  }
}
