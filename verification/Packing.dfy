/** Packing items into pages of limited room, in order. */
module Packing {
  import opened Common
  import opened Sequences

  /** The room that items take together. */
  function Used<T>(size: T -> nat, xs: seq<T>): nat {
    if xs == [] then 0 else size(xs[0]) + Used(size, xs[1..])
  }

  lemma {:induction false} UsedConcat<T>(size: T -> nat, a: seq<T>, b: seq<T>)
    ensures Used(size, a + b) == Used(size, a) + Used(size, b)
  {
    if a == [] {
      assert a + b == b;
    } else {
      UsedConcat(size, a[1..], b);
      assert (a + b)[1..] == a[1..] + b;
    }
  }

  lemma UsedSnoc<T>(size: T -> nat, a: seq<T>, x: T)
    ensures Used(size, a + [x]) == Used(size, a) + size(x)
  {
    UsedConcat(size, a, [x]);
    assert Used(size, [x]) == size(x) + Used(size, []);
  }

  /** The items of all pages, in order. */
  function Flat<T>(pages: seq<seq<T>>): seq<T> {
    if pages == [] then [] else pages[0] + Flat(pages[1..])
  }

  lemma {:induction false} FlatConcat<T>(a: seq<seq<T>>, b: seq<seq<T>>)
    ensures Flat(a + b) == Flat(a) + Flat(b)
  {
    if a == [] {
      assert a + b == b;
    } else {
      FlatConcat(a[1..], b);
      assert (a + b)[0] == a[0] && (a + b)[1..] == a[1..] + b;
      Associative(a[0], Flat(a[1..]), Flat(b));
    }
  }

  lemma FlatSnoc<T>(a: seq<seq<T>>, page: seq<T>)
    ensures Flat(a + [page]) == Flat(a) + page
  {
    FlatConcat(a, [page]);
    assert Flat([page]) == page + Flat([]);
  }

  lemma {:induction false} InFlat<T>(pages: seq<seq<T>>, i: nat, j: nat)
    requires i < |pages| && j < |pages[i]|
    ensures pages[i][j] in Flat(pages)
  {
    if i > 0 {
      InFlat(pages[1..], i - 1, j);
    }
  }

  /** No page takes more than the room there is. */
  ghost predicate Packed<T>(size: T -> nat, pages: seq<seq<T>>, room: int) {
    forall i :: 0 <= i < |pages| ==> Used(size, pages[i]) <= room
  }

  /** Adding an item to page o puts it behind the items of the pages up to o, and moves nothing else. */
  lemma AddedItem<T>(pages: seq<seq<T>>, o: nat, x: T) returns (k: nat)
    requires o < |pages|
    ensures k <= |Flat(pages)|
    ensures Flat(pages[o := pages[o] + [x]]) == InsertAt(Flat(pages), k, x)
  {
    var before, page, after := pages[..o], pages[o], pages[o + 1..];
    assert pages == before + ([page] + after);
    assert pages[o := page + [x]] == before + ([page + [x]] + after);
    FlatConcat(before, [page] + after);
    FlatConcat(before, [page + [x]] + after);
    k := |Flat(before)| + |page|;
    assert ([page] + after)[1..] == after && ([page + [x]] + after)[1..] == after;
    assert Flat(pages) == Flat(before) + page + Flat(after);
    assert Flat(pages)[..k] == Flat(before) + page && Flat(pages)[k..] == Flat(after);
  }

  // ---------- greedy packing ----------

  /** Batches as greedy packing makes them: none is empty, and no batch could have taken the first
      item of the next one. */
  ghost predicate Greedy<T>(size: T -> nat, batches: seq<seq<T>>, room: int) {
    && Packed(size, batches, room)
    && (forall i :: 0 <= i < |batches| ==> batches[i] != [])
    && (forall i :: 0 <= i < |batches| - 1 ==> Tight(size, batches, i, room))
  }

  ghost predicate Tight<T>(size: T -> nat, batches: seq<seq<T>>, i: nat, room: int)
    requires i + 1 < |batches|
  {
    batches[i + 1] != [] && Used(size, batches[i]) + size(batches[i + 1][0]) > room
  }

  lemma UsedPart<T>(size: T -> nat, xs: seq<T>, n: nat)
    requires n <= |xs|
    ensures Used(size, xs[..n]) <= Used(size, xs) && Used(size, xs[n..]) <= Used(size, xs)
  {
    UsedConcat(size, xs[..n], xs[n..]);
    assert xs[..n] + xs[n..] == xs;
  }

  /** Pages without the first n items. */
  ghost function Trim<T>(parts: seq<seq<T>>, n: nat): seq<seq<T>>
    requires n <= |Flat(parts)|
  {
    if parts == [] then []
    else if n <= |parts[0]| then [parts[0][n..]] + parts[1..]
    else [[]] + Trim(parts[1..], n - |parts[0]|)
  }

  lemma {:induction false} TrimmedPacked<T>(size: T -> nat, parts: seq<seq<T>>, n: nat, room: nat)
    requires n <= |Flat(parts)| && Packed(size, parts, room)
    ensures |Trim(parts, n)| == |parts| && Packed(size, Trim(parts, n), room)
  {
    if parts != [] {
      if n <= |parts[0]| {
        UsedPart(size, parts[0], n);
      } else {
        TrimmedPacked(size, parts[1..], n - |parts[0]|, room);
      }
    }
  }

  lemma {:induction false} TrimmedFlat<T>(parts: seq<seq<T>>, n: nat)
    requires n <= |Flat(parts)|
    ensures Flat(Trim(parts, n)) == Flat(parts)[n..]
  {
    if parts != [] {
      Dropped(parts[0], Flat(parts[1..]), n);
      if n <= |parts[0]| {
        assert Trim(parts, n)[1..] == parts[1..];
      } else {
        TrimmedFlat(parts[1..], n - |parts[0]|);
        assert Trim(parts, n)[1..] == Trim(parts[1..], n - |parts[0]|);
      }
    }
  }

  lemma NextItem<T>(batches: seq<seq<T>>)
    requires |batches| > 1 && batches[1] != []
    ensures batches[0] + [batches[1][0]] <= Flat(batches)
  {
    var rest := batches[1..];
    assert Flat(rest) == rest[0] + Flat(rest[1..]);
    assert Flat(rest)[0] == batches[1][0];
  }

  /** The first batch of a greedy packing is the longest start of the items that fits a page. */
  lemma FirstBatchLongest<T>(size: T -> nat, batches: seq<seq<T>>, page: seq<T>, room: int)
    requires Greedy(size, batches, room) && batches != []
    requires page <= Flat(batches) && Used(size, page) <= room
    ensures |page| <= |batches[0]|
  {
    if |batches| == 1 {
      assert Flat(batches) == batches[0] + Flat(batches[1..]);
      assert Flat(batches) == batches[0];
    } else if |page| > |batches[0]| {
      assert Tight(size, batches, 0, room);
      NextItem(batches);
      var x, n := batches[1][0], |batches[0]| + 1;
      assert page[..n] == batches[0] + [x];
      UsedSnoc(size, batches[0], x);
      UsedPart(size, page, n);
    }
  }

  lemma GreedyTail<T>(size: T -> nat, batches: seq<seq<T>>, room: int)
    requires Greedy(size, batches, room) && batches != []
    ensures Greedy(size, batches[1..], room)
  {
    forall i | 0 <= i < |batches[1..]| - 1
      ensures Tight(size, batches[1..], i, room)
    {
      assert Tight(size, batches, i + 1, room);
    }
  }

  /** Greedy packing uses no more pages than any packing of the same items in the same order. */
  lemma {:induction false} GreedyIsOptimal<T>(size: T -> nat, batches: seq<seq<T>>, parts: seq<seq<T>>, room: int)
    requires Greedy(size, batches, room) && Packed(size, parts, room) && Flat(batches) == Flat(parts)
    ensures |batches| <= |parts|
    decreases |batches|
  {
    if batches != [] {
      assert parts != [];
      assert 0 <= Used(size, parts[0]) <= room;
      FirstBatchLongest(size, batches, parts[0], room);
      var n := |batches[0]| - |parts[0]|;
      TrimmedPacked(size, parts[1..], n, room);
      TrimmedFlat(parts[1..], n);
      Dropped(parts[0], Flat(parts[1..]), |batches[0]|);
      GreedyTail(size, batches, room);
      GreedyIsOptimal(size, batches[1..], Trim(parts[1..], n), room);
    }
  }

  lemma Closed<T>(size: T -> nat, batches: seq<seq<T>>, current: seq<T>, x: T, room: int)
    requires Greedy(size, batches + [current], room)
    requires Used(size, current) + size(x) > room >= size(x)
    ensures Greedy(size, batches + [current] + [[x]], room)
  {
    var more := batches + [current] + [[x]];
    UsedSnoc(size, [], x);
    assert [] + [x] == [x];
    forall i | 0 <= i < |more|
      ensures Used(size, more[i]) <= room && more[i] != []
    {
      assert i < |batches| + 1 ==> more[i] == (batches + [current])[i];
    }
    forall i | 0 <= i < |more| - 1
      ensures Tight(size, more, i, room)
    {
      assert more[i] == (batches + [current])[i];
      if i < |batches| { assert Tight(size, batches + [current], i, room); }
    }
  }

  lemma Extended<T>(size: T -> nat, batches: seq<seq<T>>, current: seq<T>, x: T, room: int)
    requires Greedy(size, batches + [current], room)
    requires Used(size, current) + size(x) <= room
    ensures Greedy(size, batches + [current + [x]], room)
  {
    var was, more := batches + [current], batches + [current + [x]];
    UsedSnoc(size, current, x);
    forall i | 0 <= i < |more|
      ensures Used(size, more[i]) <= room && more[i] != []
    {
      assert i < |batches| ==> more[i] == was[i];
    }
    forall i | 0 <= i < |more| - 1
      ensures Tight(size, more, i, room)
    {
      assert Tight(size, was, i, room);
      assert was[|batches|] != [] && (current + [x])[0] == current[0];
    }
  }

  /** No item is too large for a page of its own. */
  ghost predicate EachFits<T>(size: T -> nat, xs: seq<T>, room: int) {
    forall i :: 0 <= i < |xs| ==> size(xs[i]) <= room
  }

  lemma FitsReplaced<T>(size: T -> nat, xs: seq<T>, i: nat, x: T, room: int)
    requires EachFits(size, xs, room) && i < |xs|
    ensures EachFits(size, xs[i := x], room) <==> size(x) <= room
  {
    assert xs[i := x][i] == x;
  }

  lemma FitsAppended<T>(size: T -> nat, xs: seq<T>, x: T, room: int)
    requires EachFits(size, xs, room)
    ensures EachFits(size, xs + [x], room) <==> size(x) <= room
  {
    assert (xs + [x])[|xs|] == x;
  }

  /** Packed items fit a page each. */
  lemma {:induction false} PackedFits<T>(size: T -> nat, pages: seq<seq<T>>, room: int)
    requires Packed(size, pages, room)
    ensures EachFits(size, Flat(pages), room)
  {
    if pages != [] {
      ItemsFit(size, pages[0]);
      PackedFits(size, pages[1..], room);
    }
  }

  lemma {:induction false} ItemsFit<T>(size: T -> nat, xs: seq<T>)
    ensures forall i :: 0 <= i < |xs| ==> size(xs[i]) <= Used(size, xs)
  {
    if xs != [] {
      ItemsFit(size, xs[1..]);
      forall i | 0 <= i < |xs|
        ensures size(xs[i]) <= Used(size, xs)
      {
        if i > 0 { assert xs[i] == xs[1..][i - 1]; }
      }
    }
  }

  /** Fills one batch after another; fails exactly when an item is too large for any page. */
  method PackGreedily<T>(size: T -> nat, xs: seq<T>, room: int) returns (r: Option<seq<seq<T>>>)
    ensures r.Some? <==> EachFits(size, xs, room)
    ensures r.Some? ==> Flat(r.value) == xs && Greedy(size, r.value, room)
  {
    var batches: seq<seq<T>>, current: seq<T>, used := [], [], 0;
    for i := 0 to |xs|
      invariant forall j :: 0 <= j < i ==> size(xs[j]) <= room
      invariant used == Used(size, current)
      invariant Flat(batches + [current]) == xs[..i]
      invariant if current == [] then i == 0 && batches == [] else Greedy(size, batches + [current], room)
    {
      var x := xs[i];
      if size(x) > room {
        return None;
      }
      FlatSnoc(batches, current);
      FlatSnoc(batches, current + [x]);
      FlatSnoc(batches + [current], [x]);
      assert xs[..i + 1] == xs[..i] + [x];
      UsedSnoc(size, current, x);
      if current != [] && used + size(x) > room {
        Closed(size, batches, current, x, room);
        batches := batches + [current];
        current, used := [], 0;
      } else if current != [] {
        Extended(size, batches, current, x, room);
      }
      current, used := current + [x], used + size(x);
      assert [] + [x] == [x];
    }
    assert xs[..|xs|] == xs;
    if current != [] {
      batches := batches + [current];
    }
    r := Some(batches);
  }
}
