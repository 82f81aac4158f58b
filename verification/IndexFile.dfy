/** The index file: whatever the tree writes has a page of its own that holds it. */
module IndexFile {
  import opened Common
  import opened Values
  import opened BinaryIo
  import opened NodePages
  import opened IndexTree
  import opened BStarTree

  lemma KeySize(k: Value)
    ensures |EncKey(k)| == Index.EncodedSize(k)
  {
  }

  /** The most bytes that a key of the index takes. */
  ghost predicate KeysTake(t: Index, most: nat) {
    ResolveMaxEncodedKeySize(t.keyType, t.maxKeyBytes) == Some(most)
  }

  /** The ids in a page are within the limits of the format. */
  ghost predicate IdsFit(page: Page) {
    match page
    case Leaf(es, next, _) =>
      (next.At? ==> next.id < 0xFFFF_FFFF_FFFF_FFFF) && forall i :: 0 <= i < |es| ==> es[i].rid < Span(8)
    case Internal(_, kids, _) => forall i :: 0 <= i < |kids| ==> kids[i] < Span(8)
  }

  lemma KeysSmall(t: Index, page: Page, most: nat, i: nat)
    requires KeysTake(t, most) && t.KeysFit(page) && i < Count(page)
    ensures var k := SlotsOf(page)[i].0; TypeOf(k) == t.keyType && |EncKey(k)| <= most
  {
    var k := SlotsOf(page)[i].0;
    assert t.ValidKey(k);
    KeySize(k);
  }

  lemma PageStorable(t: Index, page: Page, most: nat)
    requires KeysTake(t, most) && t.KeysFit(page) && IdsFit(page)
    ensures Storable(page, t.keyType, most)
  {
    forall i | 0 <= i < Count(page)
      ensures StorableSlot(SlotsOf(page)[i], t.keyType, most)
    {
      KeysSmall(t, page, most, i);
    }
  }

  lemma WriteBuilt(t: Index, size: nat, most: nat, page: Page, parent: Link)
    requires t.KeysFit(page) && Count(page) <= 2 * t.degree - 1
    requires KeysTake(t, most) && NodeSize(2 * t.degree - 1, most) <= size
    ensures BuildPage(size, page, parent, t.keyType).Some?
  {
    forall i | 0 <= i < Count(page)
      ensures |EncKey(SlotsOf(page)[i].0)| <= most
    {
      KeysSmall(t, page, most, i);
    }
    NodeBuilt(size, most, t.degree, page, parent, t.keyType);
  }

  /** Every page that the tree may write is built; and when its ids are in range, it parses back to the
      node that was written. */
  lemma WriteFits(t: Index, size: nat, most: nat, page: Page, parent: Link)
    requires t.KeysFit(page) && Count(page) <= 2 * t.degree - 1
    requires KeysTake(t, most) && NodeSize(2 * t.degree - 1, most) <= size
    ensures BuildPage(size, page, parent, t.keyType).Some?
    ensures var r := BuildPage(size, page, parent, t.keyType);
            size < Span(4) && IdsFit(page) ==> |r.value| == size && ParsePage(r.value, t.keyType) == Some(page)
  {
    WriteBuilt(t, size, most, page, parent);
    if size < Span(4) && IdsFit(page) {
      PageStorable(t, page, most);
      NodesFit(size, most, t.degree, page, parent, t.keyType);
    }
  }

  lemma IdsInTree(t: Index, x: PageId)
    requires t.Valid() && t.root.At? && x in t.info && x in t.pages
    requires t.pageCount < 0xFFFF_FFFF_FFFF_FFFF && forall k :: k in t.Contents ==> t.Contents[k] < Span(8)
    ensures IdsFit(t.pages[x])
  {
    Spans();
    var s, page := t.S(), t.pages[x];
    assert NodeOk(s, x);
    if page.Leaf? {
      if page.next.At? { assert NodeOk(s, page.next.id); }
      forall i | 0 <= i < |page.entries|
        ensures page.entries[i].rid < Span(8)
      {
        assert page.entries[i].key in KeySet(page.entries);
      }
    } else {
      forall i | 0 <= i < |page.kids|
        ensures page.kids[i] < Span(8)
      {
        assert KidOk(s, x, i);
        assert NodeOk(s, page.kids[i]);
      }
    }
  }

  /** When the degree was computed from the page size and the largest key, every node of a reachable
      tree is built into exactly one page, and that page parses back to the node. */
  lemma TreeFitsItsFile(t: Index, size: nat, most: nat, x: PageId, parent: Link)
    requires t.Valid() && t.root.At? && x in t.info
    requires KeysTake(t, most) && NodeSize(2 * t.degree - 1, most) <= size < Span(4)
    requires t.pageCount < 0xFFFF_FFFF_FFFF_FFFF && forall k :: k in t.Contents ==> t.Contents[k] < Span(8)
    ensures x in t.pages && (t.pages[x].Internal? ==> |t.pages[x].kids| == |t.pages[x].seps| + 1)
    ensures var r := BuildPage(size, t.pages[x], parent, t.keyType);
            r.Some? && |r.value| == size && ParsePage(r.value, t.keyType) == Some(t.pages[x])
  {
    assert NodeOk(t.S(), x) && Full(t.S(), x);
    assert t.KeysFit(t.pages[x]);
    IdsInTree(t, x);
    WriteFits(t, size, most, t.pages[x], parent);
  }
}
