/** The leaf chain lists all entries in key order. */
module IndexScan {
  import opened Common
  import opened Values
  import opened IndexTree
  import opened IndexSteps

  /** Positions of children grow from left to right. */
  lemma {:induction false} KidMono(s: Snap, x: PageId, i: nat, j: nat)
    requires NodeOk(s, x) && s.pages[x].Internal? && i <= j < |s.pages[x].kids|
    requires forall y :: y in s.info ==> s.info[y].first <= s.info[y].end
    ensures KidOk(s, x, i) && KidOk(s, x, j) && s.info[s.pages[x].kids[i]].first <= s.info[s.pages[x].kids[j]].first
    ensures i < j ==> s.info[s.pages[x].kids[i]].end <= s.info[s.pages[x].kids[j]].first
    decreases j - i
  {
    assert KidOk(s, x, i) && KidOk(s, x, j);
    if i < j {
      KidMono(s, x, i + 1, j);
    }
  }

  /** Keys of an earlier child are below keys of a later one. */
  lemma KidOrder(s: Snap, x: PageId, i: nat, j: nat, q: Value, q': Value)
    requires NodeOk(s, x) && s.pages[x].Internal? && i < j < |s.pages[x].kids| && KidOk(s, x, i) && KidOk(s, x, j)
    requires q in s.info[s.pages[x].kids[i]].keys && q' in s.info[s.pages[x].kids[j]].keys
    ensures Rank(q) < Rank(q')
  {
    assert InSlot(s.pages[x].seps, i, q) && InSlot(s.pages[x].seps, j, q');
    assert i == j - 1 || Rank(s.pages[x].seps[i]) < Rank(s.pages[x].seps[j - 1]);
  }

  /** Keys of an earlier leaf are below keys of a later one. */
  lemma {:induction false} LeafOrder(s: Snap, weak: set<PageId>, x: PageId, n: nat, n': nat, q: Value, q': Value)
    requires Inv(s, weak) && x in s.info && s.info[x].first <= n < n' < s.info[x].end
    requires n' < |s.leaves| && q in s.info[s.leaves[n]].keys && q' in s.info[s.leaves[n']].keys
    ensures Rank(q) < Rank(q')
    decreases s.info[x].height
  {
    assert NodeOk(s, x);
    assert s.pages[x].Internal?;
    Ranges(s, weak);
    assert KidOk(s, x, 0);
    var i := KidAt(s, x, n, 0);
    var i' := KidAt(s, x, n', 0);
    if i == i' {
      LeafOrder(s, weak, s.pages[x].kids[i], n, n', q, q');
    } else {
      if i' < i { KidMono(s, x, i', i); }
      SubKeys(s, weak, s.pages[x].kids[i], n);
      SubKeys(s, weak, s.pages[x].kids[i'], n');
      KidOrder(s, x, i, i', q, q');
    }
  }

  /** Leaves left of the one that a search leads to hold only smaller keys. */
  lemma {:induction false} LeftOfPath(s: Snap, weak: set<PageId>, path: seq<Step>, z: PageId, k: Value, j: nat,
                                      n: nat, q: Value)
    requires Inv(s, weak) && PathOk(s, path, z) && Follows(s, path, z, k) && j <= |path|
    requires Target(path, z, j) in s.info && n < s.info[Target(path, z, j)].first && n < |s.leaves| &&
             q in s.info[s.leaves[n]].keys
    ensures Rank(q) < Rank(k)
    decreases j
  {
    if j > 0 {
      var w, i := path[j - 1].pid, path[j - 1].idx;
      assert StepOk(s, path, z, j - 1);
      assert NodeOk(s, w) && KidOk(s, w, i) && KidOk(s, w, 0);
      if n < s.info[w].first {
        LeftOfPath(s, weak, path, z, k, j - 1, n, q);
      } else {
        Ranges(s, weak);
        KidRangeHigh(s, w, i);
        var i' := KidAt(s, w, n, 0);
        if i <= i' { KidMono(s, w, i, i'); }
        SubKeys(s, weak, s.pages[w].kids[i'], n);
        assert InSlot(s.pages[w].seps, i', q) && InSlot(s.pages[w].seps, i, k);
        assert i' == i - 1 || Rank(s.pages[w].seps[i']) < Rank(s.pages[w].seps[i - 1]);
      }
    }
  }

  /** Every key is in some leaf. */
  lemma {:induction false} LeafOfKey(s: Snap, weak: set<PageId>, x: PageId, k: Value) returns (n: nat)
    requires Inv(s, weak) && x in s.info && k in s.info[x].keys
    ensures n < |s.leaves| && k in s.info[s.leaves[n]].keys
    decreases s.info[x].height
  {
    assert NodeOk(s, x);
    if s.pages[x].Leaf? {
      n := s.info[x].first;
    } else {
      var i := SlotOf(s.pages[x].seps, k, 0);
      assert KidOk(s, x, i);
      n := LeafOfKey(s, weak, s.pages[x].kids[i], k);
    }
  }

  lemma {:induction false} SlotOf(seps: seq<Value>, k: Value, from: nat) returns (i: nat)
    requires from <= |seps| && (from > 0 ==> Rank(seps[from - 1]) <= Rank(k))
    ensures InSlot(seps, i, k)
    decreases |seps| - from
  {
    if from == |seps| || Rank(k) < Rank(seps[from]) {
      i := from;
    } else {
      i := SlotOf(seps, k, from + 1);
    }
  }

  // ---------- the entries along the chain ----------

  ghost predicate LeavesOn(s: Snap) {
    forall n :: 0 <= n < |s.leaves| ==> s.leaves[n] in s.pages && s.pages[s.leaves[n]].Leaf?
  }

  /** The entries of leaf c and of all leaves after it. */
  ghost function From(s: Snap, c: nat): seq<Entry>
    requires LeavesOn(s)
    decreases |s.leaves| - c
  {
    if c < |s.leaves| then s.pages[s.leaves[c]].entries + From(s, c + 1) else []
  }

  lemma ChainLeaves(s: Snap, weak: set<PageId>)
    requires Inv(s, weak)
    ensures LeavesOn(s)
    ensures forall n :: 0 <= n < |s.leaves| ==>
              && s.leaves[n] in s.info && s.leaves[n] in s.pages && s.pages[s.leaves[n]].Leaf?
              && s.info[s.leaves[n]].keys == KeySet(s.pages[s.leaves[n]].entries)
              && s.pages[s.leaves[n]].next == LinkAt(s.leaves, n + 1)
  {
    forall n | 0 <= n < |s.leaves|
      ensures && s.leaves[n] in s.info && s.leaves[n] in s.pages && s.pages[s.leaves[n]].Leaf?
              && s.info[s.leaves[n]].keys == KeySet(s.pages[s.leaves[n]].entries)
              && s.pages[s.leaves[n]].next == LinkAt(s.leaves, n + 1)
    {
      assert NodeOk(s, s.leaves[n]);
    }
  }

  /** An entry found at or after leaf c comes from one of these leaves. */
  lemma {:induction false} FromLeaf(s: Snap, c: nat, e: Entry) returns (n: nat, i: nat)
    requires LeavesOn(s) && e in From(s, c)
    ensures c <= n < |s.leaves| && i < |s.pages[s.leaves[n]].entries| && s.pages[s.leaves[n]].entries[i] == e
    decreases |s.leaves| - c
  {
    if e in s.pages[s.leaves[c]].entries {
      n := c;
      i :| 0 <= i < |s.pages[s.leaves[c]].entries| && s.pages[s.leaves[c]].entries[i] == e;
    } else {
      n, i := FromLeaf(s, c + 1, e);
    }
  }

  lemma {:induction false} LeafFrom(s: Snap, c: nat, n: nat, i: nat)
    requires LeavesOn(s) && c <= n < |s.leaves| && i < |s.pages[s.leaves[n]].entries|
    ensures s.pages[s.leaves[n]].entries[i] in From(s, c)
    decreases n - c
  {
    if c < n { LeafFrom(s, c + 1, n, i); }
  }

  lemma {:induction false} FromAscending(s: Snap, weak: set<PageId>, c: nat)
    requires Inv(s, weak) && LeavesOn(s)
    ensures AscendingEntries(From(s, c))
    decreases |s.leaves| - c
  {
    if c < |s.leaves| {
      ChainLeaves(s, weak);
      var x := s.leaves[c];
      assert NodeOk(s, x);
      FromAscending(s, weak, c + 1);
      var es, rest := s.pages[x].entries, From(s, c + 1);
      forall i, j | 0 <= i < |es| && 0 <= j < |rest|
        ensures Rank(es[i].key) < Rank(rest[j].key)
      {
        var n, m := FromLeaf(s, c + 1, rest[j]);
        assert es[i].key in KeySet(es) && rest[j].key in KeySet(s.pages[s.leaves[n]].entries);
        LeafOrder(s, weak, s.root, c, n, es[i].key, rest[j].key);
      }
    }
  }

  /** Next-leaf links run through the leaves in order, and so do their entries. */
  ghost predicate Chained(s: Snap) {
    && LeavesOn(s)
    && (forall n :: 0 <= n < |s.leaves| ==> s.pages[s.leaves[n]].next == LinkAt(s.leaves, n + 1))
    && (forall n: nat {:trigger From(s, n)} :: AscendingEntries(From(s, n)))
  }

  lemma ChainOfIndex(s: Snap, weak: set<PageId>)
    requires Inv(s, weak)
    ensures Chained(s)
  {
    ChainLeaves(s, weak);
    forall n: nat
      ensures AscendingEntries(From(s, n))
    {
      FromAscending(s, weak, n);
    }
  }

  /** The chain from the first leaf lists exactly the index, in ascending key order. */
  lemma ChainIsIndex(s: Snap, weak: set<PageId>)
    requires Inv(s, weak)
    ensures LeavesOn(s) && AscendingEntries(From(s, 0))
    ensures forall e :: e in From(s, 0) <==> e.key in s.contents && s.contents[e.key] == e.rid
  {
    ChainLeaves(s, weak);
    FromAscending(s, weak, 0);
    forall e: Entry
      ensures e in From(s, 0) <==> e.key in s.contents && s.contents[e.key] == e.rid
    {
      if e in From(s, 0) {
        var n, i := FromLeaf(s, 0, e);
        assert NodeOk(s, s.leaves[n]);
      }
      if e.key in s.contents && s.contents[e.key] == e.rid {
        var n := LeafOfKey(s, weak, s.root, e.key);
        assert NodeOk(s, s.leaves[n]);
        var i :| 0 <= i < |s.pages[s.leaves[n]].entries| && s.pages[s.leaves[n]].entries[i].key == e.key;
        LeafFrom(s, 0, n, i);
      }
    }
  }

  // ---------- ranges of keys ----------

  datatype KeyRange = KeyRange(low: Option<Value>, high: Option<Value>, includeLow: bool, includeHigh: bool)

  predicate FitsInRange(key: Value, range: KeyRange) {
    && (range.low.Some? ==> if range.includeLow then !Less(key, range.low.value) else Less(range.low.value, key))
    && !PastHigh(key, range)
  }

  /** The scan can stop at this key. */
  predicate PastHigh(key: Value, range: KeyRange) {
    range.high.Some? && (if range.includeHigh then Less(range.high.value, key) else !Less(key, range.high.value))
  }

  /** The entries whose keys lie in the range, in order. */
  ghost function Hits(es: seq<Entry>, range: KeyRange): seq<Entry> {
    if es == [] then []
    else (if FitsInRange(es[0].key, range) then [es[0]] else []) + Hits(es[1..], range)
  }

  ghost function Rids(es: seq<Entry>): seq<nat> {
    seq(|es|, i requires 0 <= i < |es| => es[i].rid)
  }

  lemma {:induction false} HitsConcat(a: seq<Entry>, b: seq<Entry>, range: KeyRange)
    ensures Hits(a + b, range) == Hits(a, range) + Hits(b, range)
  {
    if a == [] {
      assert a + b == b;
    } else {
      assert (a + b)[1..] == a[1..] + b;
      HitsConcat(a[1..], b, range);
    }
  }

  lemma {:induction false} NoHits(es: seq<Entry>, range: KeyRange)
    requires forall e :: e in es ==> !FitsInRange(e.key, range)
    ensures Hits(es, range) == []
  {
    if es != [] { NoHits(es[1..], range); }
  }

  lemma {:induction false} HitsMembers(es: seq<Entry>, range: KeyRange)
    requires AscendingEntries(es)
    ensures AscendingEntries(Hits(es, range))
    ensures forall e :: e in Hits(es, range) <==> e in es && FitsInRange(e.key, range)
  {
    if es != [] {
      HitsMembers(es[1..], range);
      assert es == [es[0]] + es[1..];
    }
  }

  /** Leaves without a key in the range can be skipped. */
  lemma {:induction false} HitsSkip(s: Snap, a: nat, c: nat, range: KeyRange)
    requires LeavesOn(s) && a <= c <= |s.leaves|
    requires forall n, e :: a <= n < c && e in s.pages[s.leaves[n]].entries ==> !FitsInRange(e.key, range)
    ensures Hits(From(s, a), range) == Hits(From(s, c), range)
    decreases c - a
  {
    if a < c {
      HitsSkip(s, a + 1, c, range);
      HitsConcat(s.pages[s.leaves[a]].entries, From(s, a + 1), range);
      NoHits(s.pages[s.leaves[a]].entries, range);
    }
  }

  lemma AscendingSuffix(es: seq<Entry>, i: nat)
    requires AscendingEntries(es) && i <= |es|
    ensures AscendingEntries(es[i..])
  {
  }

  /** Nothing after a key past the upper end is in the range. */
  lemma HitsEnd(es: seq<Entry>, range: KeyRange)
    requires AscendingEntries(es) && es != [] && PastHigh(es[0].key, range)
    ensures Hits(es, range) == []
  {
    forall e | e in es
      ensures !FitsInRange(e.key, range)
    {
      var i :| 0 <= i < |es| && es[i] == e;
      assert i == 0 || Rank(es[0].key) < Rank(es[i].key);
      RankOrder(range.high.value, es[0].key);
      RankOrder(es[0].key, range.high.value);
      RankOrder(range.high.value, e.key);
      RankOrder(e.key, range.high.value);
    }
    NoHits(es, range);
  }

  /** Leaves left of the one where the search for the lower end leads have no key in the range. */
  lemma LeftOfLow(s: Snap, weak: set<PageId>, path: seq<Step>, z: PageId, range: KeyRange)
    requires Inv(s, weak) && range.low.Some? && PathOk(s, path, z) && Follows(s, path, z, range.low.value)
    requires z in s.pages && s.pages[z].Leaf?
    ensures LeavesOn(s) && z in s.info && s.info[z].first < |s.leaves| && s.leaves[s.info[z].first] == z
    ensures Hits(From(s, 0), range) == Hits(From(s, s.info[z].first), range)
  {
    ChainLeaves(s, weak);
    assert NodeOk(s, z);
    forall n, e | 0 <= n < s.info[z].first && e in s.pages[s.leaves[n]].entries
      ensures !FitsInRange(e.key, range)
    {
      var x := s.leaves[n];
      assert e.key in KeySet(s.pages[x].entries);
      LeftOfPath(s, weak, path, z, range.low.value, |path|, n, e.key);
      RankOrder(e.key, range.low.value);
      RankOrder(range.low.value, e.key);
    }
    HitsSkip(s, 0, s.info[z].first, range);
  }

  /** What a range scan has to return: the row ids of the keys in the range, in ascending key order. */
  ghost predicate Listing(m: map<Value, nat>, range: KeyRange, hits: seq<Entry>, out: seq<nat>) {
    && AscendingEntries(hits)
    && (forall e :: e in hits <==> e.key in m && m[e.key] == e.rid && FitsInRange(e.key, range))
    && out == Rids(hits)
  }

  lemma ScanIsListing(s: Snap, weak: set<PageId>, range: KeyRange, out: seq<nat>)
    requires Inv(s, weak) && LeavesOn(s) && out == Rids(Hits(From(s, 0), range))
    ensures Listing(s.contents, range, Hits(From(s, 0), range), out)
  {
    ChainIsIndex(s, weak);
    HitsMembers(From(s, 0), range);
  }
}
