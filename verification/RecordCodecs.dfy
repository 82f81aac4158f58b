/** Values, tuples, rows, version records, requests and responses as bytes. */
module RecordCodecs {
  import opened Sequences
  import opened Values
  import opened BinaryIo

  type Tuple = seq<Value>

  /** A stored row: deleted rows stay in the heap with their flag set. */
  datatype Row = Row(rid: nat, deleted: bool, tuple: Tuple)

  // ---------- combinators ----------

  /** One item after another. */
  function Both<A(!new), B(!new)>(a: Codec<A>, b: Codec<B>): Codec<(A, B)> {
    Codec((p: (A, B)) => a.enc(p.0) + b.enc(p.1),
          bytes => ReadBoth(a, b, bytes),
          (p: (A, B)) => a.fits(p.0) && b.fits(p.1))
  }

  function ReadBoth<A(!new), B(!new)>(a: Codec<A>, b: Codec<B>, bytes: Bytes): Parsed<(A, B)> {
    match a.read(bytes)
    case Fail => Fail
    case Got(x, tail) =>
      match b.read(tail)
      case Fail => Fail
      case Got(y, rest) => Got((x, y), rest)
  }

  lemma BothSound<A(!new), B(!new)>(a: Codec<A>, b: Codec<B>)
    requires a.Sound() && b.Sound()
    ensures Both(a, b).Sound()
  {
    forall v: (A, B), bytes: Bytes, rest: Bytes
      ensures Both(a, b).At(v, bytes, rest)
    {
      var tail := b.enc(v.1) + rest;
      assert a.enc(v.0) + b.enc(v.1) + rest == a.enc(v.0) + tail;
      assert a.At(v.0, bytes, tail) && b.At(v.1, tail, rest);
      match a.read(bytes)
      case Fail =>
      case Got(x, tail') =>
        assert a.At(x, bytes, tail');
        match b.read(tail')
        case Fail =>
        case Got(y, rest') =>
          assert b.At(y, tail', rest');
          assert bytes == a.enc(x) + b.enc(y) + rest';
    }
  }

  /** Items that stand for the items of another codec. */
  function Remap<A(!new), R(!new)>(c: Codec<A>, to: R -> A, from: A -> R): Codec<R> {
    Codec((r: R) => c.enc(to(r)),
          bytes => (match c.read(bytes)
                    case Fail => Fail
                    case Got(a, rest) => Got(from(a), rest)),
          (r: R) => c.fits(to(r)))
  }

  lemma RemapSound<A(!new), R(!new)>(c: Codec<A>, to: R -> A, from: A -> R)
    requires c.Sound()
    requires forall r :: from(to(r)) == r
    requires forall a :: c.fits(a) ==> to(from(a)) == a
    ensures Remap(c, to, from).Sound()
  {
    forall r: R, bytes: Bytes, rest: Bytes
      ensures Remap(c, to, from).At(r, bytes, rest)
    {
      assert c.At(to(r), bytes, rest);
      match c.read(bytes)
      case Fail =>
      case Got(a, tail) => assert c.At(a, bytes, tail);
    }
  }

  /** A number of n bytes that must not exceed a limit. */
  function Limited(n: nat, limit: nat): Codec<nat> {
    Codec((v: nat) => LE(n, v),
          bytes => (match ReadLE(n, bytes)
                    case Fail => Fail
                    case Got(v, rest) => if v > limit then Fail else Got(v, rest)),
          (v: nat) => v < Span(n) && v <= limit)
  }

  lemma LimitedSound(n: nat, limit: nat)
    ensures Limited(n, limit).Sound()
  {
    forall v: nat, bytes: Bytes, rest: Bytes
      ensures Limited(n, limit).At(v, bytes, rest)
    {
      LECodec(n, v, bytes, rest);
    }
  }

  function Number(n: nat): Codec<nat> {
    Codec((v: nat) => LE(n, v), bytes => ReadLE(n, bytes), (v: nat) => v < Span(n))
  }

  lemma NumberSound(n: nat)
    ensures Number(n).Sound()
  {
    forall v: nat, bytes: Bytes, rest: Bytes
      ensures Number(n).At(v, bytes, rest)
    {
      LECodec(n, v, bytes, rest);
    }
  }

  function Ints(): Codec<Int64> {
    Codec((v: Int64) => EncInt(v), bytes => ReadInt(bytes), (v: Int64) => true)
  }

  lemma IntsSound()
    ensures Ints().Sound()
  {
    forall v: Int64, bytes: Bytes, rest: Bytes
      ensures Ints().At(v, bytes, rest)
    {
      IntCodec(v, bytes, rest);
    }
  }

  function Bools(): Codec<bool> {
    Codec((v: bool) => EncBool(v), bytes => ReadBool(bytes), (v: bool) => true)
  }

  lemma BoolsSound()
    ensures Bools().Sound()
  {
    forall v: bool, bytes: Bytes, rest: Bytes
      ensures Bools().At(v, bytes, rest)
    {
      BoolCodec(v, bytes, rest);
    }
  }

  function Strings(): Codec<Bytes> {
    Codec((v: Bytes) => EncString(v), bytes => ReadString(bytes), (v: Bytes) => |v| < Span(4))
  }

  lemma StringsSound()
    ensures Strings().Sound()
  {
    forall v: Bytes, bytes: Bytes, rest: Bytes
      ensures Strings().At(v, bytes, rest)
    {
      StringCodec(v, bytes, rest);
    }
  }

  // ---------- values and tuples ----------

  function Payload(v: Value): Bytes {
    match v
    case Null => []
    case Int(n) => EncInt(n)
    case Str(s) => EncString(s)
    case Bool(b) => EncBool(b)
  }

  /** The type tag, then the payload. */
  function EncValue(v: Value): Bytes {
    LE(4, Tag(TypeOf(v))) + Payload(v)
  }

  function ReadPayload(tag: nat, tail: Bytes): (r: Parsed<Value>) {
    if tag == 0 then
      Got(Null, tail)
    else if tag == 1 then
      (match ReadInt(tail) case Fail => Fail case Got(n, rest) => Got(Int(n), rest))
    else if tag == 2 then
      (match ReadString(tail) case Fail => Fail case Got(s, rest) => Got(Str(s), rest))
    else if tag == 3 then
      (match ReadBool(tail) case Fail => Fail case Got(b, rest) => Got(Bool(b), rest))
    else
      Fail
  }

  function ReadValue(bytes: Bytes): (r: Parsed<Value>) {
    match ReadLE(4, bytes)
    case Fail => Fail
    case Got(tag, tail) => ReadPayload(tag, tail)
  }

  predicate FitsValue(v: Value) {
    v.Str? ==> |v.s| < Span(4)
  }

  lemma PayloadCodec(v: Value, tag: nat, tail: Bytes, rest: Bytes)
    ensures ReadPayload(tag, tail) == Got(v, rest) <==>
            tag == Tag(TypeOf(v)) && FitsValue(v) && tail == Payload(v) + rest
  {
    match v
    case Null => assert [] + rest == rest;
    case Int(n) => IntCodec(n, tail, rest);
    case Str(s) => StringCodec(s, tail, rest);
    case Bool(b) => BoolCodec(b, tail, rest);
  }

  lemma ValueCodec(v: Value, bytes: Bytes, rest: Bytes)
    ensures ReadValue(bytes) == Got(v, rest) <==> FitsValue(v) && bytes == EncValue(v) + rest
  {
    Spans();
    var tag := Tag(TypeOf(v));
    Associative(LE(4, tag), Payload(v), rest);
    LECodec(4, tag, bytes, Payload(v) + rest);
    match ReadLE(4, bytes)
    case Fail =>
    case Got(t, tail) => PayloadCodec(v, t, tail, rest);
  }

  function Items(): Codec<Value> {
    Codec((v: Value) => EncValue(v), bytes => ReadValue(bytes), (v: Value) => FitsValue(v))
  }

  lemma ItemsSound()
    ensures Items().Sound()
  {
    forall v: Value, bytes: Bytes, rest: Bytes
      ensures Items().At(v, bytes, rest)
    {
      ValueCodec(v, bytes, rest);
    }
  }

  /** The most values a tuple may have when it is read back. */
  const MAX_VALUES: nat := 0x10_0000

  function EncTuple(t: Tuple): Bytes {
    LE(8, |t|) + EncAll(Items(), t)
  }

  function ReadTuple(bytes: Bytes): (r: Parsed<Tuple>) {
    match ReadLE(8, bytes)
    case Fail => Fail
    case Got(n, tail) => if n > MAX_VALUES then Fail else ReadN(Items(), n, tail)
  }

  predicate FitsTuple(t: Tuple) {
    |t| <= MAX_VALUES && AllFit(Items(), t)
  }

  lemma TupleCodec(t: Tuple, bytes: Bytes, rest: Bytes)
    ensures ReadTuple(bytes) == Got(t, rest) <==> FitsTuple(t) && bytes == EncTuple(t) + rest
  {
    Spans();
    ItemsSound();
    var tail := EncAll(Items(), t) + rest;
    Associative(LE(8, |t|), EncAll(Items(), t), rest);
    LECodec(8, |t|, bytes, tail);
    ListCodec(Items(), |t|, t, tail, rest);
    match ReadLE(8, bytes)
    case Fail =>
    case Got(n, tail') =>
      LECodec(8, n, bytes, tail');
      ListCodec(Items(), n, t, tail', rest);
  }

  function Tuples(): Codec<Tuple> {
    Codec((t: Tuple) => EncTuple(t), bytes => ReadTuple(bytes), (t: Tuple) => FitsTuple(t))
  }

  lemma TuplesSound()
    ensures Tuples().Sound()
  {
    forall v: Tuple, bytes: Bytes, rest: Bytes
      ensures Tuples().At(v, bytes, rest)
    {
      TupleCodec(v, bytes, rest);
    }
  }

  method SerializeTuple(t: Tuple, buffer: Bytes) returns (out: Bytes)
    ensures out == buffer + EncTuple(t)
  {
    out := WriteAll(Items(), t, buffer + LE(8, |t|));
  }

  /** The encoding of the tuple stands at the offset, with the rest behind it. */
  ghost predicate TupleAt(bytes: Bytes, offset: nat, t: Tuple, rest: Bytes) {
    FitsTuple(t) && offset <= |bytes| && bytes[offset..] == EncTuple(t) + rest
  }

  /** Reads a tuple wherever it starts: accepted exactly when the bytes there begin with the
      encoding of a tuple within the limits, which is then the result. */
  method DeserializeTuple(bytes: Bytes, offset: nat) returns (r: Parsed<Tuple>)
    ensures forall t, rest :: r == Got(t, rest) <==> TupleAt(bytes, offset, t, rest)
  {
    if offset > |bytes| {
      return Fail;
    }
    match ReadLE(8, bytes[offset..])
    case Fail =>
      r := Fail;
    case Got(n, tail) =>
      if n > MAX_VALUES {
        r := Fail;
      } else {
        r := ReadItems(Items(), n, tail);
      }
    assert r == ReadTuple(bytes[offset..]);
    forall t, rest
      ensures r == Got(t, rest) <==> TupleAt(bytes, offset, t, rest)
    {
      TupleCodec(t, bytes[offset..], rest);
    }
  }

  // ---------- rows ----------

  function RowHeadBytes(row: Row): (bs: Bytes)
    ensures |bs| == 17
  {
    LE(8, row.rid) + (EncBool(row.deleted) + LE(8, |EncTuple(row.tuple)|))
  }

  function EncRow(row: Row): (bs: Bytes)
    ensures |bs| == 17 + |EncTuple(row.tuple)|
  {
    RowHeadBytes(row) + EncTuple(row.tuple)
  }

  function RowHead(): Codec<(nat, (bool, nat))> {
    Both(Number(8), Both(Bools(), Number(8)))
  }

  /** The tuple after a row's head must take exactly the announced size. */
  function ReadRowBody(head: Parsed<(nat, (bool, nat))>): (r: Parsed<Row>) {
    match head
    case Fail => Fail
    case Got((rid, (deleted, size)), tail) =>
      if |tail| < size then Fail else
      match ReadTuple(tail)
      case Fail => Fail
      case Got(t, rest) => if |tail| - |rest| != size then Fail else Got(Row(rid, deleted, t), rest)
  }

  function ReadRow(bytes: Bytes): (r: Parsed<Row>) {
    ReadRowBody(RowHead().read(bytes))
  }

  predicate FitsRow(row: Row) {
    row.rid < Span(8) && FitsTuple(row.tuple)
  }

  lemma {:induction false} ItemsSize(t: Tuple)
    requires AllFit(Items(), t)
    ensures 4 * |t| <= |EncAll(Items(), t)| <= |t| * 0x1_0000_0010
  {
    if t != [] {
      Spans();
      assert Items().fits(t[0]);
      assert AllFit(Items(), t[1..]);
      ItemsSize(t[1..]);
    }
  }

  lemma {:induction false} ItemsAtLeast(t: Tuple)
    ensures |EncAll(Items(), t)| >= 4 * |t|
    ensures forall i :: 0 <= i < |t| && t[i].Str? ==> |t[i].s| <= |EncAll(Items(), t)|
  {
    if t != [] {
      ItemsAtLeast(t[1..]);
      forall i | 0 <= i < |t| && t[i].Str?
        ensures |t[i].s| <= |EncAll(Items(), t)|
      {
        if i > 0 { assert t[i] == t[1..][i - 1]; }
      }
    }
  }

  lemma RowHeadSound()
    ensures RowHead().Sound()
  {
    NumberSound(8);
    BoolsSound();
    BothSound(Bools(), Number(8));
    BothSound(Number(8), Both(Bools(), Number(8)));
  }

  lemma RowHeadAt(row: Row, bytes: Bytes, tail: Bytes)
    ensures RowHead().read(bytes) == Got((row.rid, (row.deleted, |EncTuple(row.tuple)|)), tail) <==>
            row.rid < Span(8) && |EncTuple(row.tuple)| < Span(8) && bytes == RowHeadBytes(row) + tail
  {
    RowHeadSound();
    assert RowHead().At((row.rid, (row.deleted, |EncTuple(row.tuple)|)), bytes, tail);
  }

  lemma TupleSize(t: Tuple)
    requires FitsTuple(t)
    ensures |EncTuple(t)| < Span(8)
  {
    Spans();
    ItemsSize(t);
  }

  lemma RowBody(head: Parsed<(nat, (bool, nat))>, row: Row, rest: Bytes)
    ensures ReadRowBody(head) == Got(row, rest) <==>
            && FitsTuple(row.tuple)
            && head == Got((row.rid, (row.deleted, |EncTuple(row.tuple)|)), EncTuple(row.tuple) + rest)
  {
    TupleCodec(row.tuple, EncTuple(row.tuple) + rest, rest);
    if head.Got? {
      TupleCodec(row.tuple, head.rest, rest);
    }
  }

  lemma RowCodec(row: Row, bytes: Bytes, rest: Bytes)
    ensures ReadRow(bytes) == Got(row, rest) <==> FitsRow(row) && bytes == EncRow(row) + rest
  {
    var t := EncTuple(row.tuple);
    RowBody(RowHead().read(bytes), row, rest);
    RowHeadAt(row, bytes, t + rest);
    assert RowHeadBytes(row) + (t + rest) == EncRow(row) + rest;
    if FitsTuple(row.tuple) {
      TupleSize(row.tuple);
    }
  }

  // ---------- version records ----------

  datatype VersionOp = Inserted | Updated | Deleted

  function OpTag(op: VersionOp): nat {
    match op
    case Inserted => 0
    case Updated => 1
    case Deleted => 2
  }

  function OpOf(tag: nat): VersionOp {
    if tag == 0 then Inserted else if tag == 1 then Updated else Deleted
  }

  datatype VersionRecord = VersionRecord(
    timestamp: Int64, table: Bytes, rid: nat, op: VersionOp, before: Tuple, after: Tuple)

  function RecordFields(): Codec<(Int64, (Bytes, (nat, (nat, (Tuple, Tuple)))))> {
    Both(Ints(), Both(Strings(), Both(Number(8), Both(Limited(4, 2), Both(Tuples(), Tuples())))))
  }

  function EncRecord(r: VersionRecord): Bytes {
    EncInt(r.timestamp) + (EncString(r.table) + (LE(8, r.rid) + (LE(4, OpTag(r.op))
      + (EncTuple(r.before) + EncTuple(r.after)))))
  }

  function RecordTo(r: VersionRecord): (Int64, (Bytes, (nat, (nat, (Tuple, Tuple))))) {
    (r.timestamp, (r.table, (r.rid, (OpTag(r.op), (r.before, r.after)))))
  }

  function RecordFrom(f: (Int64, (Bytes, (nat, (nat, (Tuple, Tuple)))))): VersionRecord {
    VersionRecord(f.0, f.1.0, f.1.1.0, OpOf(f.1.1.1.0), f.1.1.1.1.0, f.1.1.1.1.1)
  }

  function Records(): Codec<VersionRecord> {
    Remap(RecordFields(), RecordTo, RecordFrom)
  }

  function ReadRecord(bytes: Bytes): (r: Parsed<VersionRecord>) {
    Records().read(bytes)
  }

  predicate FitsRecord(r: VersionRecord) {
    |r.table| < Span(4) && r.rid < Span(8) && FitsTuple(r.before) && FitsTuple(r.after)
  }

  lemma RecordFieldsSound()
    ensures RecordFields().Sound()
  {
    IntsSound();
    StringsSound();
    NumberSound(8);
    LimitedSound(4, 2);
    TuplesSound();
    BothSound(Tuples(), Tuples());
    BothSound(Limited(4, 2), Both(Tuples(), Tuples()));
    BothSound(Number(8), Both(Limited(4, 2), Both(Tuples(), Tuples())));
    BothSound(Strings(), Both(Number(8), Both(Limited(4, 2), Both(Tuples(), Tuples()))));
    BothSound(Ints(), Both(Strings(), Both(Number(8), Both(Limited(4, 2), Both(Tuples(), Tuples())))));
  }

  lemma RecordCodec(r: VersionRecord, bytes: Bytes, rest: Bytes)
    ensures ReadRecord(bytes) == Got(r, rest) <==> FitsRecord(r) && bytes == EncRecord(r) + rest
  {
    RecordFieldsSound();
    RemapSound(RecordFields(), RecordTo, RecordFrom);
    assert Records().At(r, bytes, rest);
    RecordBytes(r);
  }

  lemma RecordBytes(r: VersionRecord)
    ensures RecordFields().enc(RecordTo(r)) == EncRecord(r)
    ensures RecordFields().fits(RecordTo(r)) <==> FitsRecord(r)
  {
    Spans();
  }

  // ---------- requests and responses ----------

  datatype Request = Request(id: Bytes, database: Bytes, sql: Bytes, token: Bytes)

  function RequestFields(): Codec<(Bytes, (Bytes, (Bytes, Bytes)))> {
    Both(Strings(), Both(Strings(), Both(Strings(), Strings())))
  }

  function EncRequest(q: Request): Bytes {
    EncString(q.id) + (EncString(q.database) + (EncString(q.sql) + EncString(q.token)))
  }

  /** A request must use up all the bytes. */
  function ReadRequest(bytes: Bytes): (r: Parsed<Request>) {
    match RequestFields().read(bytes)
    case Fail => Fail
    case Got((id, (database, (sql, token))), rest) =>
      if rest != [] then Fail else Got(Request(id, database, sql, token), rest)
  }

  predicate FitsRequest(q: Request) {
    |q.id| < Span(4) && |q.database| < Span(4) && |q.sql| < Span(4) && |q.token| < Span(4)
  }

  lemma RequestCodec(q: Request, bytes: Bytes)
    ensures ReadRequest(bytes) == Got(q, []) <==> FitsRequest(q) && bytes == EncRequest(q)
  {
    RequestFieldsSound();
    RequestBytes(q);
    assert RequestFields().At(RequestTo(q), bytes, []);
    assert EncRequest(q) + [] == EncRequest(q);
  }

  function RequestTo(q: Request): (Bytes, (Bytes, (Bytes, Bytes))) {
    (q.id, (q.database, (q.sql, q.token)))
  }

  lemma RequestFieldsSound()
    ensures RequestFields().Sound()
  {
    StringsSound();
    BothSound(Strings(), Strings());
    BothSound(Strings(), Both(Strings(), Strings()));
    BothSound(Strings(), Both(Strings(), Both(Strings(), Strings())));
  }

  lemma RequestBytes(q: Request)
    ensures RequestFields().enc(RequestTo(q)) == EncRequest(q)
    ensures RequestFields().fits(RequestTo(q)) <==> FitsRequest(q)
  {
  }

  datatype Response = Response(
    ok: bool, error: Bytes, resultOk: bool, resultError: Bytes,
    affected: nat, columns: seq<Bytes>, rows: seq<Tuple>)

  /** A list behind a 32-bit count. */
  function Counted<T(!new)>(c: Codec<T>): Codec<seq<T>> {
    Codec((xs: seq<T>) => LE(4, |xs|) + EncAll(c, xs),
          bytes => (match ReadLE(4, bytes)
                    case Fail => Fail
                    case Got(n, tail) => ReadN(c, n, tail)),
          (xs: seq<T>) => |xs| < Span(4) && AllFit(c, xs))
  }

  lemma CountedAt<T(!new)>(c: Codec<T>, xs: seq<T>, bytes: Bytes, rest: Bytes)
    requires c.Sound()
    ensures Counted(c).At(xs, bytes, rest)
  {
    var tail := EncAll(c, xs) + rest;
    Associative(LE(4, |xs|), EncAll(c, xs), rest);
    LECodec(4, |xs|, bytes, tail);
    ListCodec(c, |xs|, xs, tail, rest);
    match ReadLE(4, bytes)
    case Fail =>
    case Got(n, tail') =>
      LECodec(4, n, bytes, tail');
      ListCodec(c, n, xs, tail', rest);
  }

  lemma CountedSound<T(!new)>(c: Codec<T>)
    requires c.Sound()
    ensures Counted(c).Sound()
  {
    forall xs: seq<T>, bytes: Bytes, rest: Bytes
      ensures Counted(c).At(xs, bytes, rest)
    {
      CountedAt(c, xs, bytes, rest);
    }
  }

  function ReplyFields(): Codec<(bool, (Bytes, (bool, Bytes)))> {
    Both(Bools(), Both(Strings(), Both(Bools(), Strings())))
  }

  function ResultFields(): Codec<(nat, (seq<Bytes>, seq<Tuple>))> {
    Both(Number(4), Both(Counted(Strings()), Counted(Tuples())))
  }

  type ResponseData = ((bool, (Bytes, (bool, Bytes))), (nat, (seq<Bytes>, seq<Tuple>)))

  function EncReply(p: Response): Bytes {
    EncBool(p.ok) + (EncString(p.error) + (EncBool(p.resultOk) + EncString(p.resultError)))
  }

  function EncResult(p: Response): Bytes {
    LE(4, p.affected)
      + ((LE(4, |p.columns|) + EncAll(Strings(), p.columns))
      + (LE(4, |p.rows|) + EncAll(Tuples(), p.rows)))
  }

  function EncResponse(p: Response): Bytes {
    EncReply(p) + EncResult(p)
  }

  function ResponseTo(p: Response): ResponseData {
    ((p.ok, (p.error, (p.resultOk, p.resultError))), (p.affected, (p.columns, p.rows)))
  }

  function ResponseFrom(f: ResponseData): Response {
    Response(f.0.0, f.0.1.0, f.0.1.1.0, f.0.1.1.1, f.1.0, f.1.1.0, f.1.1.1)
  }

  function Responses(): Codec<Response> {
    Remap(Both(ReplyFields(), ResultFields()), ResponseTo, ResponseFrom)
  }

  /** A response must use up all the bytes. */
  function ReadResponse(bytes: Bytes): (r: Parsed<Response>) {
    var r := Responses().read(bytes);
    if r.Got? && r.rest == [] then r else Fail
  }

  predicate FitsReply(p: Response) {
    |p.error| < Span(4) && |p.resultError| < Span(4)
  }

  predicate FitsResult(p: Response) {
    && p.affected < Span(4)
    && |p.columns| < Span(4) && AllFit(Strings(), p.columns)
    && |p.rows| < Span(4) && AllFit(Tuples(), p.rows)
  }

  /** A codec whose encodings and limits are those named. */
  ghost predicate Describes<A(!new)>(c: Codec<A>, v: A, bytes: Bytes, fits: bool) {
    c.Sound() && c.enc(v) == bytes && (c.fits(v) <==> fits)
  }

  lemma ReplyBytes(p: Response)
    ensures Describes(ReplyFields(), ResponseTo(p).0, EncReply(p), FitsReply(p))
  {
    StringsSound();
    BoolsSound();
    BothSound(Bools(), Strings());
    BothSound(Strings(), Both(Bools(), Strings()));
    BothSound(Bools(), Both(Strings(), Both(Bools(), Strings())));
  }

  lemma ResultBytes(p: Response)
    ensures Describes(ResultFields(), ResponseTo(p).1, EncResult(p), FitsResult(p))
  {
    StringsSound();
    TuplesSound();
    NumberSound(4);
    CountedSound(Strings());
    CountedSound(Tuples());
    BothSound(Counted(Strings()), Counted(Tuples()));
    BothSound(Number(4), Both(Counted(Strings()), Counted(Tuples())));
  }

  /** A response is read exactly when its two halves are there, one after the other. */
  lemma ResponseAt(a: Codec<(bool, (Bytes, (bool, Bytes)))>, b: Codec<(nat, (seq<Bytes>, seq<Tuple>))>, p: Response,
                   bytes: Bytes)
    requires Describes(a, ResponseTo(p).0, EncReply(p), FitsReply(p))
    requires Describes(b, ResponseTo(p).1, EncResult(p), FitsResult(p))
    ensures Remap(Both(a, b), ResponseTo, ResponseFrom).read(bytes) == Got(p, []) <==>
            FitsReply(p) && FitsResult(p) && bytes == EncResponse(p)
  {
    BothSound(a, b);
    RemapSound(Both(a, b), ResponseTo, ResponseFrom);
    assert Remap(Both(a, b), ResponseTo, ResponseFrom).At(p, bytes, []);
    assert EncResponse(p) + [] == EncResponse(p);
  }

  lemma ResponseCodec(p: Response, bytes: Bytes)
    ensures ReadResponse(bytes) == Got(p, []) <==> FitsReply(p) && FitsResult(p) && bytes == EncResponse(p)
  {
    ReplyBytes(p);
    ResultBytes(p);
    ResponseAt(ReplyFields(), ResultFields(), p, bytes);
  }

  method SerializeResponse(p: Response) returns (out: Bytes)
    ensures out == EncResponse(p)
  {
    var reply := EncReply(p);
    var columns := WriteAll(Strings(), p.columns, reply + LE(4, p.affected) + LE(4, |p.columns|));
    out := WriteAll(Tuples(), p.rows, columns + LE(4, |p.rows|));
    Regroup(reply, LE(4, p.affected), LE(4, |p.columns|), EncAll(Strings(), p.columns), LE(4, |p.rows|),
        EncAll(Tuples(), p.rows));
  }

  lemma Regroup(a: Bytes, b: Bytes, c: Bytes, d: Bytes, e: Bytes, f: Bytes)
    ensures a + b + c + d + e + f == a + (b + ((c + d) + (e + f)))
  {
  }

  method DeserializeResult(bytes: Bytes) returns (r: Parsed<(nat, (seq<Bytes>, seq<Tuple>))>)
    ensures r == ResultFields().read(bytes)
  {
    match ReadLE(4, bytes)
    case Fail =>
      return Fail;
    case Got(affected, tail) =>
      var columns := ReadCounted(Strings(), tail);
      if columns.Fail? {
        return Fail;
      }
      var rows := ReadCounted(Tuples(), columns.rest);
      if rows.Fail? {
        return Fail;
      }
      r := Got((affected, (columns.value, rows.value)), rows.rest);
  }

  method ReadCounted<T(!new)>(c: Codec<T>, bytes: Bytes) returns (r: Parsed<seq<T>>)
    ensures r == Counted(c).read(bytes)
  {
    match ReadLE(4, bytes)
    case Fail => r := Fail;
    case Got(n, tail) => r := ReadItems(c, n, tail);
  }
}
