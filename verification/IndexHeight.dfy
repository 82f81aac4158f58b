/** How many keys a tree of a given height must hold. */
module IndexHeight {
  import opened Values
  import opened IndexTree
  import opened IndexPlans

  function Pow(b: nat, e: nat): nat {
    if e == 0 then 1 else b * Pow(b, e - 1)
  }

  lemma KeySetLast(es: seq<Entry>, n: nat)
    requires |es| == n + 1
    ensures KeySet(es) == KeySet(es[..n]) + {es[n].key}
  {
    forall k | k in KeySet(es)
      ensures k in KeySet(es[..n]) + {es[n].key}
    {
      var i :| 0 <= i < |es| && es[i].key == k;
      if i < n { assert es[..n][i].key == k; }
    }
    forall k | k in KeySet(es[..n])
      ensures k in KeySet(es)
    {
      var i :| 0 <= i < n && es[..n][i].key == k;
      assert es[i].key == k;
    }
  }

  lemma {:induction false} KeySetSize(es: seq<Entry>)
    requires AscendingEntries(es)
    ensures |KeySet(es)| == |es|
  {
    if es != [] {
      var n := |es| - 1;
      KeySetSize(es[..n]);
      KeySetLast(es, n);
      assert es[n].key !in KeySet(es[..n]);
    }
  }

  /** The keys below the first j children of page x. */
  ghost function KeysOfFirst(s: Snap, x: PageId, j: nat): set<Value>
    requires x in s.pages && s.pages[x].Internal? && j <= |s.pages[x].kids|
    requires forall y :: y in s.pages[x].kids ==> y in s.info
  {
    if j == 0 then {} else KeysOfFirst(s, x, j - 1) + s.info[s.pages[x].kids[j - 1]].keys
  }

  lemma DisjointSize<T>(a: set<T>, b: set<T>)
    requires a !! b
    ensures |a + b| == |a| + |b|
  {
  }

  /** The keys of the first j children lie below those of child j. */
  lemma {:induction false} FirstKidsOrder(s: Snap, x: PageId, j: nat)
    requires NodeOk(s, x) && s.pages[x].Internal? && j <= |s.pages[x].kids|
    requires forall y :: y in s.pages[x].kids ==> y in s.info
    ensures KeysOfFirst(s, x, j) <= s.info[x].keys
    ensures forall k :: k in KeysOfFirst(s, x, j) && j < |s.pages[x].kids| ==>
              j > 0 && Rank(k) < Rank(s.pages[x].seps[j - 1])
  {
    if j > 0 {
      FirstKidsOrder(s, x, j - 1);
      assert KidOk(s, x, j - 1);
      if 1 < j < |s.pages[x].kids| {
        assert Rank(s.pages[x].seps[j - 2]) < Rank(s.pages[x].seps[j - 1]);
      }
    }
  }

  lemma NextKidDisjoint(s: Snap, x: PageId, j: nat)
    requires NodeOk(s, x) && s.pages[x].Internal? && j < |s.pages[x].kids|
    requires forall y :: y in s.pages[x].kids ==> y in s.info
    ensures KeysOfFirst(s, x, j) !! s.info[s.pages[x].kids[j]].keys
  {
    FirstKidsOrder(s, x, j);
    assert KidOk(s, x, j);
    var below := KeysOfFirst(s, x, j);
    forall k | k in s.info[s.pages[x].kids[j]].keys
      ensures k !in below
    {
      assert InSlot(s.pages[x].seps, j, k);
    }
  }

  lemma {:induction false} FirstKids(s: Snap, x: PageId, j: nat, least: nat)
    requires NodeOk(s, x) && s.pages[x].Internal? && j <= |s.pages[x].kids|
    requires forall y :: y in s.pages[x].kids ==> y in s.info && least <= |s.info[y].keys|
    ensures |KeysOfFirst(s, x, j)| >= Times(j, least)
  {
    if j > 0 {
      FirstKids(s, x, j - 1, least);
      NextKidDisjoint(s, x, j - 1);
      DisjointSize(KeysOfFirst(s, x, j - 1), s.info[s.pages[x].kids[j - 1]].keys);
    }
  }

  /** j * least, added up. */
  ghost function Times(j: nat, least: nat): nat {
    if j == 0 then 0 else Times(j - 1, least) + least
  }

  lemma {:induction false} TimesMono(n: nat, d: nat, least: nat)
    requires n >= d
    ensures Times(n, least) >= Times(d, least) && Times(d, least) == d * least
  {
    if n > d {
      TimesMono(n - 1, d, least);
    } else if d > 0 {
      TimesMono(d - 1, d - 1, least);
    }
  }

  /** A page of height h other than the root has at least t^(h-1) * (t-1) keys below it. */
  lemma {:induction false} PageKeys(s: Snap, x: PageId)
    requires Inv(s, {}) && x in s.info && x != s.root
    ensures s.info[x].height > 0 && |s.info[x].keys| >= Pow(s.degree, s.info[x].height - 1) * (s.degree - 1)
    decreases s.info[x].height
  {
    assert NodeOk(s, x) && Full(s, x);
    if s.pages[x].Leaf? {
      KeySetSize(s.pages[x].entries);
    } else {
      var n := |s.pages[x].kids|;
      var least := KidsKeys(s, x);
      FirstKids(s, x, n, least);
      FirstKidsOrder(s, x, n);
      assert |KeysOfFirst(s, x, n)| <= |s.info[x].keys| by { Smaller(KeysOfFirst(s, x, n), s.info[x].keys); }
      TimesMono(n, s.degree, least);
      assert Pow(s.degree, s.info[x].height - 1) == s.degree * Pow(s.degree, s.info[x].height - 2);
      Regroup(s.degree, Pow(s.degree, s.info[x].height - 2), s.degree - 1);
    }
  }

  lemma Regroup(a: nat, b: nat, c: nat)
    ensures (a * b) * c == a * (b * c)
  {
  }

  lemma Smaller<T>(a: set<T>, b: set<T>)
    requires a <= b
    ensures |a| <= |b|
  {
    assert b == a + (b - a);
  }

  /** Every child of page x has at least this many keys. */
  lemma KidsKeys(s: Snap, x: PageId) returns (least: nat)
    requires Inv(s, {}) && x in s.info && x in s.pages && s.pages[x].Internal?
    ensures s.info[x].height >= 2 && least == Pow(s.degree, s.info[x].height - 2) * (s.degree - 1)
    ensures forall y :: y in s.pages[x].kids ==> y in s.info && least <= |s.info[y].keys|
    decreases s.info[x].height, 0
  {
    assert NodeOk(s, x);
    least := Pow(s.degree, s.info[x].height - 2) * (s.degree - 1);
    forall y | y in s.pages[x].kids
      ensures y in s.info && least <= |s.info[y].keys|
    {
      var j: nat :| j < |s.pages[x].kids| && s.pages[x].kids[j] == y;
      assert KidOk(s, x, j) && NodeOk(s, y);
      PageKeys(s, y);
    }
  }

  /** A tree of height h >= 2 holds at least 2 * t^(h-2) * (t-1) keys. */
  lemma TreeKeys(s: Snap)
    requires Inv(s, {}) && s.height >= 2
    ensures |s.contents| >= 2 * (Pow(s.degree, s.height - 2) * (s.degree - 1))
  {
    var x := s.root;
    assert NodeOk(s, x) && Full(s, x);
    var n := |s.pages[x].kids|;
    var least := KidsKeys(s, x);
    FirstKids(s, x, n, least);
    FirstKidsOrder(s, x, n);
    Smaller(KeysOfFirst(s, x, n), s.contents.Keys);
    TimesMono(n, 2, least);
    assert |s.contents| == |s.contents.Keys|;
  }

  /** A search reads as many pages as the tree is high, so their number is logarithmic in the
      number of keys. */
  lemma SearchDepth(s: Snap, path: seq<Step>, z: PageId)
    requires Inv(s, {}) && PathOk(s, path, z) && z in s.pages && s.pages[z].Leaf?
    ensures |path| + 1 == s.height
    ensures |path| > 0 ==> |s.contents| >= 2 * (Pow(s.degree, |path| - 1) * (s.degree - 1))
  {
    assert NodeOk(s, z);
    PathHeight(s, {}, path, z, |path|);
    if |path| > 0 { TreeKeys(s); }
  }
}
