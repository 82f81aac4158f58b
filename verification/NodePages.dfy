/** Index nodes as fixed-size pages, and the degree that makes them fit. */
module NodePages {
  import opened Common
  import opened Sequences
  import opened Values
  import opened BinaryIo
  import opened RecordCodecs
  import opened IndexTree

  // ---------- keys ----------

  function EncKey(v: Value): Bytes {
    match v
    case Null => []
    case Int(n) => EncInt(n)
    case Str(s) => s
    case Bool(b) => EncBool(b)
  }

  function DecKey(bytes: Bytes, t: ValueType): (r: Option<Value>) {
    match t
    case NullType => if bytes == [] then Some(Null) else None
    case IntType =>
      if |bytes| != 8 then None else
      (match ReadInt(bytes) case Fail => None case Got(n, _) => Some(Int(n)))
    case StrType => Some(Str(bytes))
    case BoolType =>
      if |bytes| != 1 || bytes[0] > 1 then None else Some(Bool(bytes[0] == 1))
  }

  /** A key is decoded exactly from its own encoding. */
  lemma KeyCodec(v: Value, bytes: Bytes, t: ValueType)
    ensures DecKey(bytes, t) == Some(v) <==> TypeOf(v) == t && bytes == EncKey(v)
  {
    match t
    case NullType =>
    case IntType =>
      if v.Int? {
        IntCodec(v.n, bytes, []);
        assert EncInt(v.n) + [] == EncInt(v.n);
      }
    case StrType =>
    case BoolType =>
  }

  /** A key in a page: its size, then its bytes. */
  function Keys(t: ValueType): Codec<Value> {
    Codec((v: Value) => EncString(EncKey(v)),
          bytes => ReadKey(t, bytes),
          (v: Value) => TypeOf(v) == t && |EncKey(v)| < Span(4))
  }

  function ReadKey(t: ValueType, bytes: Bytes): (r: Parsed<Value>) {
    match ReadString(bytes)
    case Fail => Fail
    case Got(key, rest) => (match DecKey(key, t) case None => Fail case Some(v) => Got(v, rest))
  }

  lemma KeyAt(t: ValueType, v: Value, bytes: Bytes, rest: Bytes)
    ensures ReadKey(t, bytes) == Got(v, rest) <==>
            TypeOf(v) == t && |EncKey(v)| < Span(4) && bytes == EncString(EncKey(v)) + rest
  {
    StringCodec(EncKey(v), bytes, rest);
    KeyCodec(v, EncKey(v), t);
    match ReadString(bytes)
    case Fail =>
    case Got(key, rest') => KeyCodec(v, key, t);
  }

  lemma KeysSound(t: ValueType)
    ensures Keys(t).Sound()
  {
    forall v: Value, bytes: Bytes, rest: Bytes
      ensures Keys(t).At(v, bytes, rest)
    {
      KeyAt(t, v, bytes, rest);
    }
  }

  /** A key with the row id or the child page after it. */
  function Slots(t: ValueType): Codec<(Value, nat)> {
    Both(Keys(t), Number(8))
  }

  lemma SlotsSound(t: ValueType)
    ensures Slots(t).Sound()
  {
    KeysSound(t);
    NumberSound(8);
    BothSound(Keys(t), Number(8));
  }

  function SlotsOf(page: Page): (s: seq<(Value, nat)>)
    requires page.Internal? ==> |page.kids| == |page.seps| + 1
    ensures |s| == Count(page)
  {
    match page
    case Leaf(es, _, _) => seq(|es|, i requires 0 <= i < |es| => (es[i].key, es[i].rid))
    case Internal(seps, kids, _) => seq(|seps|, i requires 0 <= i < |seps| => (seps[i], kids[i + 1]))
  }

  // ---------- pages ----------

  const NODE_MAGIC: Bytes := [67, 68, 66, 66, 42, 43, 78, 68]

  function LinkBytes(link: Link): (bs: Bytes)
    ensures |bs| == 8
  {
    LE(8, if link.At? then link.id else 0xFFFF_FFFF_FFFF_FFFF)
  }

  function Kind(page: Page): nat {
    if page.Leaf? then 2 else 1
  }

  function NextOf(page: Page): Link {
    if page.Leaf? then page.next else NoPage
  }

  function Header(page: Page, parent: Link): (bs: Bytes)
    ensures |bs| == 33
  {
    NODE_MAGIC + LE(4, Kind(page)) + LE(4, Count(page)) + LinkBytes(parent)
      + LinkBytes(NextOf(page)) + EncBool(page.isRoot)
  }

  function Body(page: Page, t: ValueType): Bytes
    requires page.Internal? ==> |page.kids| == |page.seps| + 1
  {
    (if page.Leaf? then [] else LE(8, page.kids[0])) + EncAll(Slots(t), SlotsOf(page))
  }

  /** The bytes of a node, padded with zeros to the page size; none when they do not fit. */
  function BuildPage(size: nat, page: Page, parent: Link, t: ValueType): (r: Option<Bytes>)
    requires page.Internal? ==> |page.kids| == |page.seps| + 1
  {
    var bytes := Header(page, parent) + Body(page, t);
    if |bytes| > size then None
    else Some(bytes + seq(size - |bytes|, _ => 0))
  }

  function ReadLink(bytes: Bytes): Link
    requires |bytes| == 8
  {
    if UnLE(bytes) == 0xFFFF_FFFF_FFFF_FFFF then NoPage else At(UnLE(bytes))
  }

  function ParseSlots(t: ValueType, count: nat, bytes: Bytes): (r: Option<seq<(Value, nat)>>) {
    match ReadN(Slots(t), count, bytes)
    case Fail => None
    case Got(slots, _) => Some(slots)
  }

  function LeafPage(slots: seq<(Value, nat)>, next: Link, isRoot: bool): Page {
    Leaf(seq(|slots|, i requires 0 <= i < |slots| => Entry(slots[i].0, slots[i].1)), next, isRoot)
  }

  function InternalPage(first: nat, slots: seq<(Value, nat)>, isRoot: bool): Page {
    Internal(seq(|slots|, i requires 0 <= i < |slots| => slots[i].0),
             [first] + seq(|slots|, i requires 0 <= i < |slots| => slots[i].1), isRoot)
  }

  function ParseBody(kind: nat, count: nat, next: Link, isRoot: bool, body: Bytes, t: ValueType): (r: Option<Page>) {
    if kind == 2 then
      match ParseSlots(t, count, body)
      case None => None
      case Some(slots) => Some(LeafPage(slots, next, isRoot))
    else if kind == 1 then
      match ReadLE(8, body)
      case Fail => None
      case Got(first, rest) =>
        match ParseSlots(t, count, rest)
        case None => None
        case Some(slots) => Some(InternalPage(first, slots, isRoot))
    else
      None
  }

  function ParsePage(bytes: Bytes, t: ValueType): (r: Option<Page>) {
    if |bytes| < 33 || bytes[..8] != NODE_MAGIC then None
    else ParseBody(UnLE(bytes[8..12]), UnLE(bytes[12..16]), ReadLink(bytes[24..32]), bytes[32] != 0, bytes[33..], t)
  }

  // ---------- built pages parse back ----------

  /** A node whose keys are of one type and take at most `most` bytes, with page and row ids in range. */
  ghost predicate Storable(page: Page, t: ValueType, most: nat) {
    && (page.Internal? ==> |page.kids| == |page.seps| + 1 && page.kids[0] < Span(8))
    && (page.Leaf? && page.next.At? ==> page.next.id < 0xFFFF_FFFF_FFFF_FFFF)
    && forall i :: 0 <= i < Count(page) ==> StorableSlot(SlotsOf(page)[i], t, most)
  }

  ghost predicate StorableSlot(slot: (Value, nat), t: ValueType, most: nat) {
    TypeOf(slot.0) == t && |EncKey(slot.0)| <= most && slot.1 < Span(8)
  }

  lemma SlotSize(t: ValueType, slot: (Value, nat), most: nat)
    requires |EncKey(slot.0)| <= most
    ensures |Slots(t).enc(slot)| <= 12 + most
  {
  }

  lemma Multiple(n: nat, b: nat)
    ensures (n + 1) * b == b + n * b
  {
  }

  /** A list of items of at most b bytes each. */
  lemma {:induction false} ListSize<T(!new)>(c: Codec<T>, xs: seq<T>, b: nat)
    requires forall i :: 0 <= i < |xs| ==> |c.enc(xs[i])| <= b
    ensures |EncAll(c, xs)| <= |xs| * b
  {
    if xs != [] {
      ListSize(c, xs[1..], b);
      Multiple(|xs| - 1, b);
    }
  }

  lemma SlotsSize(t: ValueType, slots: seq<(Value, nat)>, most: nat)
    requires forall i :: 0 <= i < |slots| ==> |EncKey(slots[i].0)| <= most
    ensures |EncAll(Slots(t), slots)| <= |slots| * (12 + most)
  {
    forall i | 0 <= i < |slots|
      ensures |Slots(t).enc(slots[i])| <= 12 + most
    {
      SlotSize(t, slots[i], most);
    }
    ListSize(Slots(t), slots, 12 + most);
  }

  lemma SlotsBack(t: ValueType, slots: seq<(Value, nat)>, most: nat, rest: Bytes)
    requires most < Span(4)
    requires forall i :: 0 <= i < |slots| ==> StorableSlot(slots[i], t, most)
    ensures ParseSlots(t, |slots|, EncAll(Slots(t), slots) + rest) == Some(slots)
  {
    SlotsSound(t);
    forall i | 0 <= i < |slots|
      ensures Slots(t).fits(slots[i])
    {
      assert StorableSlot(slots[i], t, most);
    }
    ListCodec(Slots(t), |slots|, slots, EncAll(Slots(t), slots) + rest, rest);
  }

  lemma LeafBack(page: Page, t: ValueType, list: Bytes)
    requires page.Leaf? && ParseSlots(t, Count(page), list) == Some(SlotsOf(page))
    ensures ParseBody(Kind(page), Count(page), NextOf(page), page.isRoot, list, t) == Some(page)
  {
    assert LeafPage(SlotsOf(page), page.next, page.isRoot).entries == page.entries;
  }

  lemma InternalBack(page: Page, t: ValueType, list: Bytes)
    requires page.Internal? && |page.kids| == |page.seps| + 1 && page.kids[0] < Span(8)
    requires ParseSlots(t, Count(page), list) == Some(SlotsOf(page))
    ensures ParseBody(Kind(page), Count(page), NextOf(page), page.isRoot, LE(8, page.kids[0]) + list, t) == Some(page)
  {
    LECodec(8, page.kids[0], LE(8, page.kids[0]) + list, list);
    var back := InternalPage(page.kids[0], SlotsOf(page), page.isRoot);
    assert back.kids == page.kids && back.seps == page.seps;
  }

  /** The list of slots in the body of a node, with whatever follows the body. */
  lemma BodyParts(page: Page, t: ValueType, most: nat, rest: Bytes) returns (list: Bytes)
    requires Storable(page, t, most) && most < Span(4)
    ensures ParseSlots(t, Count(page), list) == Some(SlotsOf(page))
    ensures Body(page, t) + rest == if page.Leaf? then list else LE(8, page.kids[0]) + list
  {
    var slots := EncAll(Slots(t), SlotsOf(page));
    SlotsBack(t, SlotsOf(page), most, rest);
    list := slots + rest;
    Associative(if page.Leaf? then [] else LE(8, page.kids[0]), slots, rest);
  }

  /** The body of a node parses back from its header's facts, whatever follows it. */
  lemma BodyBack(page: Page, t: ValueType, most: nat, rest: Bytes)
    requires Storable(page, t, most) && most < Span(4)
    ensures ParseBody(Kind(page), Count(page), NextOf(page), page.isRoot, Body(page, t) + rest, t) == Some(page)
  {
    var list := BodyParts(page, t, most, rest);
    if page.Leaf? {
      LeafBack(page, t, list);
    } else {
      InternalBack(page, t, list);
    }
  }

  lemma Sections(a: Bytes, b: Bytes, c: Bytes, d: Bytes, e: Bytes, f: Bytes, tail: Bytes)
    requires |a| == 8 && |b| == 4 && |c| == 4 && |d| == 8 && |e| == 8 && |f| == 1
    ensures var bytes := a + b + c + d + e + f + tail;
            && bytes[..8] == a && bytes[8..12] == b && bytes[12..16] == c && bytes[24..32] == e
            && bytes[32] == f[0] && bytes[33..] == tail
  {
  }

  /** A page is parsed as its header says. */
  lemma HeaderBack(page: Page, parent: Link, tail: Bytes, t: ValueType)
    requires Count(page) < Span(4)
    requires page.Leaf? && page.next.At? ==> page.next.id < 0xFFFF_FFFF_FFFF_FFFF
    ensures ParsePage(Header(page, parent) + tail, t) ==
            ParseBody(Kind(page), Count(page), NextOf(page), page.isRoot, tail, t)
  {
    Spans();
    var bytes := Header(page, parent) + tail;
    var next := NextOf(page);
    Sections(NODE_MAGIC, LE(4, Kind(page)), LE(4, Count(page)), LinkBytes(parent), LinkBytes(next),
             EncBool(page.isRoot), tail);
    UnLEOfLE(4, Kind(page));
    UnLEOfLE(4, Count(page));
    UnLEOfLE(8, if next.At? then next.id else 0xFFFF_FFFF_FFFF_FFFF);
  }

  lemma PaddedBack(page: Page, parent: Link, t: ValueType, most: nat, pad: Bytes)
    requires Storable(page, t, most) && most < Span(4) && Count(page) < Span(4)
    ensures ParsePage(Header(page, parent) + Body(page, t) + pad, t) == Some(page)
  {
    Associative(Header(page, parent), Body(page, t), pad);
    HeaderBack(page, parent, Body(page, t) + pad, t);
    BodyBack(page, t, most, pad);
  }

  lemma BuiltParts(size: nat, page: Page, parent: Link, t: ValueType) returns (pad: Bytes)
    requires page.Internal? ==> |page.kids| == |page.seps| + 1
    requires BuildPage(size, page, parent, t).Some?
    ensures BuildPage(size, page, parent, t).value == Header(page, parent) + Body(page, t) + pad
    ensures |BuildPage(size, page, parent, t).value| == size
  {
    pad := seq(size - |Header(page, parent) + Body(page, t)|, _ => 0);
  }

  /** A page that could be built is exactly one page long and parses back to the node. */
  lemma PageBack(size: nat, page: Page, parent: Link, t: ValueType, most: nat)
    requires Storable(page, t, most) && most < Span(4) && Count(page) < Span(4)
    ensures var r := BuildPage(size, page, parent, t);
            r.Some? ==> |r.value| == size && ParsePage(r.value, t) == Some(page)
  {
    if BuildPage(size, page, parent, t).Some? {
      var pad := BuiltParts(size, page, parent, t);
      PaddedBack(page, parent, t, most, pad);
    }
  }

  // ---------- the degree ----------

  /** The bytes that a node of the given number of keys takes at most. */
  function NodeSize(count: nat, most: nat): nat {
    41 + count * (12 + most)
  }

  /** The most bytes that a key of an index takes: only the size of strings is configured. */
  function ResolveMaxEncodedKeySize(t: ValueType, configured: nat): (most: Option<nat>)
    ensures most.Some? ==> most.value > 0
    ensures most.None? <==> configured == 0 || t.NullType?
    ensures most.Some? && !t.StrType? ==> forall v: Value :: TypeOf(v) == t ==> |EncKey(v)| == most.value
    ensures most.Some? && t.StrType? ==>
              forall v: Value :: TypeOf(v) == t ==> (|EncKey(v)| <= most.value <==> |EncKey(v)| <= configured)
  {
    if configured == 0 then None
    else
      match t
      case IntType => Some(8)
      case BoolType => Some(1)
      case StrType => Some(configured)
      case NullType => None
  }

  /** The largest degree whose fullest nodes fit into a page, if there is one of at least two. */
  method ComputeMinDegreeForPage(size: nat, most: nat) returns (status: Status, d: nat)
    ensures status == if most > 0 && NodeSize(3, most) <= size then Ok else InvalidArgument
    ensures status.Ok? ==> d >= 2 && NodeSize(2 * d - 1, most) <= size < NodeSize(2 * d + 1, most)
  {
    d := 0;
    if most == 0 {
      return InvalidArgument, d;
    }
    var slot := 12 + most;
    if size <= 41 {
      return InvalidArgument, d;
    }
    var leafMax := (size - 33) / slot;
    var internalMax := (size - 41) / slot;
    QuotientMono(size - 41, size - 33, slot);
    var max := if leafMax < internalMax then leafMax else internalMax;
    Quotient(size - 41, slot, max);
    if max < 3 {
      AtMost(max + 1, 3, slot);
      return InvalidArgument, d;
    }
    d := (max + 1) / 2;
    AtMost(3, max, slot);
    AtMost(2 * d - 1, max, slot);
    AtMost(max + 1, 2 * d + 1, slot);
    status := Ok;
  }

  lemma Quotient(a: nat, b: nat, q: nat)
    requires b > 0 && q == a / b
    ensures q * b <= a < (q + 1) * b
  {
    assert a == q * b + a % b;
    assert (q + 1) * b == q * b + b;
  }

  lemma QuotientMono(a: nat, a': nat, b: nat)
    requires b > 0 && a <= a'
    ensures a / b <= a' / b
  {
    Quotient(a, b, a / b);
    Quotient(a', b, a' / b);
    if a / b > a' / b { AtMost(a' / b + 1, a / b, b); }
  }

  lemma AtMost(i: int, j: int, b: nat)
    requires i <= j
    ensures i * b <= j * b
  {
    assert j * b == i * b + (j - i) * b;
  }

  /** With that degree no node of the tree outgrows its page. */
  lemma NodeBuilt(size: nat, most: nat, d: nat, page: Page, parent: Link, t: ValueType)
    requires d >= 2 && NodeSize(2 * d - 1, most) <= size && Count(page) <= 2 * d - 1
    requires page.Internal? ==> |page.kids| == |page.seps| + 1
    requires forall i :: 0 <= i < Count(page) ==> |EncKey(SlotsOf(page)[i].0)| <= most
    ensures BuildPage(size, page, parent, t).Some?
  {
    var slots := SlotsOf(page);
    SlotsSize(t, slots, most);
    AtMost(|slots|, 2 * d - 1, 12 + most);
  }

  /** Every node that the tree may write is built, and parses back to itself. */
  lemma NodesFit(size: nat, most: nat, d: nat, page: Page, parent: Link, t: ValueType)
    requires d >= 2 && NodeSize(2 * d - 1, most) <= size < Span(4)
    requires Storable(page, t, most) && Count(page) <= 2 * d - 1
    ensures var r := BuildPage(size, page, parent, t);
            r.Some? && |r.value| == size && ParsePage(r.value, t) == Some(page)
  {
    forall i | 0 <= i < Count(page)
      ensures |EncKey(SlotsOf(page)[i].0)| <= most
    {
      assert StorableSlot(SlotsOf(page)[i], t, most);
    }
    NodeBuilt(size, most, d, page, parent, t);
    AtMost(1, 2 * d - 1, 12 + most);
    CountBound(2 * d - 1, 12 + most);
    PageBack(size, page, parent, t, most);
  }

  lemma CountBound(n: nat, b: nat)
    requires b >= 1
    ensures n <= n * b
  {
    AtMost(1, b, n);
  }
}
