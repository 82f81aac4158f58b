/** Little-endian primitives and bounds-checked readers.

    A reader takes the bytes from the current offset on and gives back a value with the bytes after
    it.  Every codec is characterised by one equivalence: the reader accepts exactly the encodings of
    values within the format's limits, and leaves exactly the bytes behind them. */
module BinaryIo {
  import opened Sequences
  import opened Values

  datatype Parsed<+T> = Fail | Got(value: T, rest: Bytes)

  /** How many numbers n bytes can hold. */
  function Span(n: nat): (s: nat)
    ensures s >= 1
  {
    if n == 0 then 1 else 256 * Span(n - 1)
  }

  lemma Spans()
    ensures Span(4) == 0x1_0000_0000 && Span(8) == 0x1_0000_0000_0000_0000
  {
    assert Span(2) == 0x1_0000;
    assert Span(4) == 0x1_0000_0000;
    assert Span(6) == 0x1_0000_0000_0000;
  }

  /** The low n bytes of a number, least significant first. */
  function LE(n: nat, v: nat): (bs: Bytes)
    ensures |bs| == n
  {
    if n == 0 then [] else [v % 256] + LE(n - 1, v / 256)
  }

  function UnLE(bs: Bytes): (v: nat)
    ensures v < Span(|bs|)
  {
    if bs == [] then 0 else bs[0] + 256 * UnLE(bs[1..])
  }

  lemma {:induction false} UnLEOfLE(n: nat, v: nat)
    requires v < Span(n)
    ensures UnLE(LE(n, v)) == v
  {
    if n > 0 {
      UnLEOfLE(n - 1, v / 256);
      assert LE(n, v)[1..] == LE(n - 1, v / 256);
    }
  }

  lemma LastByte(b: Byte, v: nat)
    ensures (b + 256 * v) % 256 == b && (b + 256 * v) / 256 == v
  {
  }

  lemma {:induction false} LEOfUnLE(bs: Bytes)
    ensures LE(|bs|, UnLE(bs)) == bs
  {
    if bs != [] {
      LEOfUnLE(bs[1..]);
      LastByte(bs[0], UnLE(bs[1..]));
    }
  }

  /** An unsigned number of n bytes. */
  function ReadLE(n: nat, bytes: Bytes): (r: Parsed<nat>) {
    if |bytes| < n then Fail else Got(UnLE(bytes[..n]), bytes[n..])
  }

  lemma LECodec(n: nat, v: nat, bytes: Bytes, rest: Bytes)
    ensures ReadLE(n, bytes) == Got(v, rest) <==> v < Span(n) && bytes == LE(n, v) + rest
  {
    if |bytes| >= n {
      LEOfUnLE(bytes[..n]);
      assert bytes == bytes[..n] + bytes[n..];
    }
    if v < Span(n) {
      UnLEOfLE(n, v);
      assert (LE(n, v) + rest)[..n] == LE(n, v) && (LE(n, v) + rest)[n..] == rest;
    }
  }

  /** A signed 64-bit number, in two's complement. */
  function EncInt(v: Int64): Bytes {
    LE(8, if v < 0 then v + 0x1_0000_0000_0000_0000 else v)
  }

  function ReadInt(bytes: Bytes): (r: Parsed<Int64>) {
    Spans();
    match ReadLE(8, bytes)
    case Fail => Fail
    case Got(u, rest) => Got(if u < 0x8000_0000_0000_0000 then u else u - 0x1_0000_0000_0000_0000, rest)
  }

  lemma IntCodec(v: Int64, bytes: Bytes, rest: Bytes)
    ensures ReadInt(bytes) == Got(v, rest) <==> bytes == EncInt(v) + rest
  {
    Spans();
    LECodec(8, if v < 0 then v + 0x1_0000_0000_0000_0000 else v, bytes, rest);
  }

  function EncBool(b: bool): (bs: Bytes)
    ensures |bs| == 1
  {
    [if b then 1 else 0]
  }

  function ReadBool(bytes: Bytes): (r: Parsed<bool>) {
    if bytes == [] || bytes[0] > 1 then Fail else Got(bytes[0] == 1, bytes[1..])
  }

  lemma BoolCodec(b: bool, bytes: Bytes, rest: Bytes)
    ensures ReadBool(bytes) == Got(b, rest) <==> bytes == EncBool(b) + rest
  {
    assert bytes != [] ==> bytes == [bytes[0]] + bytes[1..];
    assert (EncBool(b) + rest)[1..] == rest;
  }

  /** A string behind its length; only the low 32 bits of the length are stored. */
  function EncString(s: Bytes): (bs: Bytes)
    ensures |bs| == 4 + |s|
  {
    LE(4, |s|) + s
  }

  function ReadString(bytes: Bytes): (r: Parsed<Bytes>) {
    match ReadLE(4, bytes)
    case Fail => Fail
    case Got(n, tail) => if |tail| < n then Fail else Got(tail[..n], tail[n..])
  }

  lemma StringCodec(s: Bytes, bytes: Bytes, rest: Bytes)
    ensures ReadString(bytes) == Got(s, rest) <==> |s| < Span(4) && bytes == EncString(s) + rest
  {
    LECodec(4, |s|, bytes, s + rest);
    assert EncString(s) + rest == LE(4, |s|) + (s + rest);
    assert (s + rest)[..|s|] == s && (s + rest)[|s|..] == rest;
    match ReadLE(4, bytes)
    case Fail =>
    case Got(n, tail) =>
      LECodec(4, n, bytes, tail);
      if n <= |tail| {
        assert tail == tail[..n] + tail[n..];
      }
  }

  // ---------- lists ----------

  /** How one kind of item is written, read and limited. */
  datatype Codec<!T(!new)> = Codec(enc: T -> Bytes, read: Bytes -> Parsed<T>, fits: T -> bool) {
    ghost predicate At(v: T, bytes: Bytes, rest: Bytes) {
      read(bytes) == Got(v, rest) <==> fits(v) && bytes == enc(v) + rest
    }

    /** The reader accepts exactly the encodings within the limits. */
    ghost predicate Sound() {
      forall v: T, bytes: Bytes, rest: Bytes :: At(v, bytes, rest)
    }
  }

  function EncAll<T(!new)>(c: Codec<T>, xs: seq<T>): Bytes {
    if xs == [] then [] else c.enc(xs[0]) + EncAll(c, xs[1..])
  }

  function ReadN<T(!new)>(c: Codec<T>, n: nat, bytes: Bytes): (r: Parsed<seq<T>>) {
    if n == 0 then Got([], bytes) else
    match c.read(bytes)
    case Fail => Fail
    case Got(x, rest) => Before([x], ReadN(c, n - 1, rest))
  }

  function Before<T>(xs: seq<T>, r: Parsed<seq<T>>): Parsed<seq<T>> {
    match r
    case Fail => Fail
    case Got(ys, rest) => Got(xs + ys, rest)
  }

  predicate AllFit<T(!new)>(c: Codec<T>, xs: seq<T>) {
    forall i :: 0 <= i < |xs| ==> c.fits(xs[i])
  }

  lemma EncFirst<T(!new)>(c: Codec<T>, x: T, xs: seq<T>, rest: Bytes)
    ensures EncAll(c, [x] + xs) + rest == c.enc(x) + (EncAll(c, xs) + rest)
  {
    assert ([x] + xs)[1..] == xs;
    Associative(c.enc(x), EncAll(c, xs), rest);
  }

  /** What was written is read. */
  lemma {:induction false} ListWritten<T(!new)>(c: Codec<T>, xs: seq<T>, rest: Bytes)
    requires c.Sound() && AllFit(c, xs)
    ensures ReadN(c, |xs|, EncAll(c, xs) + rest) == Got(xs, rest)
  {
    if xs == [] {
      assert EncAll(c, xs) + rest == rest;
    } else {
      var tail := EncAll(c, xs[1..]) + rest;
      assert xs == [xs[0]] + xs[1..];
      EncFirst(c, xs[0], xs[1..], rest);
      assert c.At(xs[0], EncAll(c, xs) + rest, tail);
      ListWritten(c, xs[1..], rest);
    }
  }

  /** What is read was written. */
  lemma {:induction false} ListRead<T(!new)>(c: Codec<T>, n: nat, bytes: Bytes)
    requires c.Sound() && ReadN(c, n, bytes).Got?
    ensures var r := ReadN(c, n, bytes); |r.value| == n && AllFit(c, r.value) && bytes == EncAll(c, r.value) + r.rest
  {
    if n == 0 {
      assert [] + bytes == bytes;
    } else {
      var x, tail := c.read(bytes).value, c.read(bytes).rest;
      assert c.At(x, bytes, tail);
      ListRead(c, n - 1, tail);
      var r := ReadN(c, n - 1, tail);
      EncFirst(c, x, r.value, r.rest);
    }
  }

  /** A list of n items is read exactly when the bytes start with the encodings of n items. */
  lemma ListCodec<T(!new)>(c: Codec<T>, n: nat, xs: seq<T>, bytes: Bytes, rest: Bytes)
    requires c.Sound()
    ensures ReadN(c, n, bytes) == Got(xs, rest) <==> |xs| == n && AllFit(c, xs) && bytes == EncAll(c, xs) + rest
  {
    if ReadN(c, n, bytes).Got? {
      ListRead(c, n, bytes);
    }
    if AllFit(c, xs) {
      ListWritten(c, xs, rest);
    }
  }

  lemma {:induction false} EncAllSnoc<T(!new)>(c: Codec<T>, xs: seq<T>, x: T)
    ensures EncAll(c, xs + [x]) == EncAll(c, xs) + c.enc(x)
  {
    if xs == [] {
      assert xs + [x] == [x];
    } else {
      EncAllSnoc(c, xs[1..], x);
      assert (xs + [x])[1..] == xs[1..] + [x];
    }
  }

  /** Appends every item to the buffer, in order. */
  method WriteAll<T(!new)>(c: Codec<T>, xs: seq<T>, buffer: Bytes) returns (out: Bytes)
    ensures out == buffer + EncAll(c, xs)
  {
    out := buffer;
    for i := 0 to |xs|
      invariant out == buffer + EncAll(c, xs[..i])
    {
      EncAllSnoc(c, xs[..i], xs[i]);
      assert xs[..i + 1] == xs[..i] + [xs[i]];
      out := out + c.enc(xs[i]);
    }
    assert xs[..|xs|] == xs;
  }

  lemma BeforeTwice<T>(xs: seq<T>, x: T, r: Parsed<seq<T>>)
    ensures Before(xs, Before([x], r)) == Before(xs + [x], r)
  {
    match r
    case Fail =>
    case Got(ys, _) => assert xs + ([x] + ys) == (xs + [x]) + ys;
  }

  /** Reads n items one after another, stopping at the first that cannot be read. */
  method ReadItems<T(!new)>(c: Codec<T>, n: nat, bytes: Bytes) returns (r: Parsed<seq<T>>)
    ensures r == ReadN(c, n, bytes)
  {
    var xs: seq<T>, rest := [], bytes;
    assert Before(xs, ReadN(c, n, rest)) == ReadN(c, n, rest) by {
      match ReadN(c, n, rest)
      case Fail =>
      case Got(ys, _) => assert [] + ys == ys;
    }
    for i := 0 to n
      invariant ReadN(c, n, bytes) == Before(xs, ReadN(c, n - i, rest))
    {
      match c.read(rest)
      case Fail =>
        return Fail;
      case Got(x, tail) =>
        BeforeTwice(xs, x, ReadN(c, n - i - 1, tail));
        xs, rest := xs + [x], tail;
    }
    assert xs + [] == xs;
    r := Got(xs, rest);
  }

  // ---------- streams ----------

  /** Reading an item always uses up some bytes. */
  ghost predicate Advances<T(!new)>(c: Codec<T>) {
    forall bytes: Bytes :: c.read(bytes).Got? ==> |c.read(bytes).rest| < |bytes|
  }

  /** All items up to the end of the bytes. */
  function ReadStream<T(!new)>(c: Codec<T>, bytes: Bytes): (r: Parsed<seq<T>>)
    requires Advances(c)
    decreases |bytes|
  {
    if bytes == [] then Got([], []) else
    match c.read(bytes)
    case Fail => Fail
    case Got(x, rest) => Before([x], ReadStream(c, rest))
  }

  /** A stream reads back as a list of items exactly when it is their encoding. */
  lemma {:induction false} StreamCodec<T(!new)>(c: Codec<T>, xs: seq<T>, bytes: Bytes)
    requires c.Sound() && Advances(c)
    ensures ReadStream(c, bytes) == Got(xs, []) <==> AllFit(c, xs) && bytes == EncAll(c, xs)
    decreases |bytes|
  {
    if xs != [] {
      var tail := EncAll(c, xs[1..]);
      assert c.At(xs[0], bytes, tail);
      if c.read(bytes) == Got(xs[0], tail) {
        StreamCodec(c, xs[1..], tail);
        assert xs == [xs[0]] + xs[1..];
      }
    } else if bytes == [] {
      assert EncAll(c, xs) == [];
    }
    match c.read(bytes)
    case Fail =>
    case Got(x, rest) =>
      assert c.At(x, bytes, rest);
      match ReadStream(c, rest)
      case Fail =>
      case Got(ys, _) =>
        StreamCodec(c, ys, rest);
        assert ([x] + ys)[1..] == ys;
  }

  lemma {:induction false} StreamEnds<T(!new)>(c: Codec<T>, bytes: Bytes)
    requires Advances(c)
    ensures ReadStream(c, bytes).Got? ==> ReadStream(c, bytes).rest == []
    decreases |bytes|
  {
    if bytes != [] && c.read(bytes).Got? { StreamEnds(c, c.read(bytes).rest); }
  }

  /** A stream that is the start of another one holds the first of its items. */
  lemma {:induction false} StreamPrefix<T(!new)>(c: Codec<T>, ys: seq<T>, xs: seq<T>, more: Bytes)
    requires c.Sound() && Advances(c)
    requires AllFit(c, ys) && AllFit(c, xs)
    requires EncAll(c, ys) + more == EncAll(c, xs)
    ensures ys <= xs
  {
    if ys != [] {
      var bytes, tail := EncAll(c, xs), EncAll(c, ys[1..]) + more;
      assert bytes == c.enc(ys[0]) + tail;
      assert c.At(ys[0], bytes, tail);
      assert xs != [];
      assert c.At(xs[0], bytes, EncAll(c, xs[1..]));
      StreamPrefix(c, ys[1..], xs[1..], more);
      assert ys == [ys[0]] + ys[1..] && xs == [xs[0]] + xs[1..];
    }
  }

  lemma {:induction false} EncAllSplit<T(!new)>(c: Codec<T>, xs: seq<T>, j: nat)
    requires j <= |xs|
    ensures EncAll(c, xs[..j]) + EncAll(c, xs[j..]) == EncAll(c, xs)
  {
    if j == 0 {
      assert xs[..0] == [] && xs[0..] == xs;
    } else {
      EncAllSplit(c, xs[1..], j - 1);
      assert xs[..j][1..] == xs[1..][..j - 1] && xs[1..][j - 1..] == xs[j..];
    }
  }

  /** A stream cut at byte k: the first j items when the cut is just behind item j, and an error
      anywhere else. */
  lemma CutStream<T(!new)>(c: Codec<T>, xs: seq<T>, k: nat)
    requires c.Sound() && Advances(c)
    requires AllFit(c, xs) && k <= |EncAll(c, xs)|
    ensures forall j: nat | j <= |xs| && k == |EncAll(c, xs[..j])| ::
              ReadStream(c, EncAll(c, xs)[..k]) == Got(xs[..j], [])
    ensures (forall j: nat | j <= |xs| :: k != |EncAll(c, xs[..j])|) ==>
              ReadStream(c, EncAll(c, xs)[..k]) == Fail
  {
    var bytes := EncAll(c, xs);
    var cut := bytes[..k];
    forall j: nat | j <= |xs| && k == |EncAll(c, xs[..j])|
      ensures ReadStream(c, cut) == Got(xs[..j], [])
    {
      EncAllSplit(c, xs, j);
      assert cut == EncAll(c, xs[..j]);
      StreamCodec(c, xs[..j], cut);
    }
    StreamEnds(c, cut);
    match ReadStream(c, cut)
    case Fail =>
    case Got(ys, _) =>
      StreamCodec(c, ys, cut);
      assert cut + bytes[k..] == bytes;
      StreamPrefix(c, ys, xs, bytes[k..]);
      assert ys == xs[..|ys|];
  }

  /** Reads items until the bytes run out, stopping at the first that cannot be read. */
  method ReadToEnd<T(!new)>(c: Codec<T>, bytes: Bytes) returns (r: Parsed<seq<T>>)
    requires Advances(c)
    ensures r == ReadStream(c, bytes)
  {
    var xs: seq<T>, rest := [], bytes;
    assert Before(xs, ReadStream(c, rest)) == ReadStream(c, rest) by {
      match ReadStream(c, rest)
      case Fail =>
      case Got(ys, _) => assert [] + ys == ys;
    }
    while rest != []
      invariant ReadStream(c, bytes) == Before(xs, ReadStream(c, rest))
      decreases |rest|
    {
      match c.read(rest)
      case Fail =>
        return Fail;
      case Got(x, tail) =>
        BeforeTwice(xs, x, ReadStream(c, tail));
        xs, rest := xs + [x], tail;
    }
    assert xs + [] == xs;
    r := Got(xs, []);
  }
}
