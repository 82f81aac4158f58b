/** The version log: a header, then one length-prefixed frame per record. */
module VersionLogs {
  import opened Common
  import opened Values
  import opened BinaryIo
  import opened RecordCodecs

  /** A record behind the size of its bytes. */
  function EncFrame(r: VersionRecord): Bytes {
    EncString(EncRecord(r))
  }

  /** A frame is read only as a whole, and its payload must be one record and nothing more. */
  function ReadFrame(bytes: Bytes): (r: Parsed<VersionRecord>)
    ensures r.Got? ==> |r.rest| < |bytes|
  {
    match ReadString(bytes)
    case Fail => Fail
    case Got(payload, rest) =>
      match ReadRecord(payload)
      case Fail => Fail
      case Got(record, extra) => if extra != [] then Fail else Got(record, rest)
  }

  predicate FitsFrame(r: VersionRecord) {
    FitsRecord(r) && |EncRecord(r)| < Span(4)
  }

  lemma FrameCodec(r: VersionRecord, bytes: Bytes, rest: Bytes)
    ensures ReadFrame(bytes) == Got(r, rest) <==> FitsFrame(r) && bytes == EncFrame(r) + rest
  {
    var payload := EncRecord(r);
    StringCodec(payload, bytes, rest);
    RecordCodec(r, payload, []);
    assert payload + [] == payload;
    match ReadString(bytes)
    case Fail =>
    case Got(payload', rest') =>
      RecordCodec(r, payload', []);
      StringCodec(payload', bytes, rest');
  }

  /** What the log takes. */
  predicate Loggable(r: VersionRecord) {
    r.table != [] && |EncRecord(r)| < Span(4)
  }

  lemma SmallTuple(t: Tuple)
    requires |EncTuple(t)| < Span(4) && |t| <= MAX_VALUES
    ensures FitsTuple(t)
  {
    ItemsAtLeast(t);
  }

  /** Row id and tuples are within the limits of the format. */
  predicate InLimits(r: VersionRecord) {
    r.rid < Span(8) && |r.before| <= MAX_VALUES && |r.after| <= MAX_VALUES
  }

  /** What the log takes it also gives back, unless the id or a tuple is beyond the limits. */
  lemma LoggedFits(r: VersionRecord)
    requires Loggable(r) && InLimits(r)
    ensures FitsFrame(r)
  {
    SmallTuple(r.before);
    SmallTuple(r.after);
  }

  function Frames(): Codec<VersionRecord> {
    Codec((r: VersionRecord) => EncFrame(r), bytes => ReadFrame(bytes), (r: VersionRecord) => FitsFrame(r))
  }

  lemma FramesSound()
    ensures Frames().Sound()
  {
    forall r: VersionRecord, bytes: Bytes, rest: Bytes
      ensures Frames().At(r, bytes, rest)
    {
      FrameCodec(r, bytes, rest);
    }
  }

  lemma FramesAdvance()
    ensures Advances(Frames())
  {
  }

  /** The records that a log body holds. */
  ghost predicate Holds(body: Bytes, rs: seq<VersionRecord>) {
    AllFit(Frames(), rs) && body == EncAll(Frames(), rs)
  }

  /** What reading a log body gives: all its records, or an error. */
  ghost function ReadLog(body: Bytes): Parsed<seq<VersionRecord>> {
    FramesAdvance();
    ReadStream(Frames(), body)
  }

  /** A log cut at byte k reads as the first j records when the cut is just behind frame j, and as an
      error anywhere else. */
  lemma TruncatedLog(body: Bytes, rs: seq<VersionRecord>, k: nat)
    requires Holds(body, rs) && k <= |body|
    ensures forall j: nat | j <= |rs| && k == |EncAll(Frames(), rs[..j])| ::
              ReadLog(body[..k]) == Got(rs[..j], [])
    ensures (forall j: nat | j <= |rs| :: k != |EncAll(Frames(), rs[..j])|) ==>
              ReadLog(body[..k]) == Fail
  {
    FramesSound();
    FramesAdvance();
    CutStream(Frames(), rs, k);
  }

  lemma LogGrows(body: Bytes, rs: seq<VersionRecord>, r: VersionRecord)
    requires Holds(body, rs) && FitsFrame(r)
    ensures Holds(body + EncFrame(r), rs + [r])
  {
    EncAllSnoc(Frames(), rs, r);
  }

  /** A record that the log took is read back with those before it, when it is within the limits. */
  lemma AppendedIntact(body: Bytes, rs: seq<VersionRecord>, r: VersionRecord)
    requires Holds(body, rs) && Loggable(r) && InLimits(r)
    ensures Holds(body + EncFrame(r), rs + [r])
  {
    LoggedFits(r);
    LogGrows(body, rs, r);
  }

  const MAGIC: Bytes := [67, 68, 66, 86, 76, 79, 71, 49]

  /** What an empty log file holds: the magic and the format version. */
  function LogHeader(): (h: Bytes)
    ensures |h| == 12
  {
    MAGIC + LE(4, 1)
  }

  class VersionLog {
    var body: Bytes                        // what follows the header
    ghost var records: seq<VersionRecord>  // what was appended

    ghost function File(): Bytes
      reads this
    {
      LogHeader() + body
    }

    /** The file holds what was appended. */
    ghost predicate Intact()
      reads this
    {
      Holds(body, records)
    }

    constructor ()
      ensures body == [] && records == [] && Intact()
    {
      body, records := [], [];
    }

    /** Opening a log file again. */
    constructor Reopen(before: VersionLog)
      ensures File() == before.File() && body == before.body && records == before.records
    {
      body, records := before.body, before.records;
    }

    /** Adds a frame at the end; AppendedIntact says when the file still holds what was appended. */
    method Append(r: VersionRecord) returns (status: Status)
      modifies this
      ensures status == if Loggable(r) then Ok else InvalidArgument
      ensures body == if status.Ok? then old(body) + EncFrame(r) else old(body)
      ensures records == if status.Ok? then old(records) + [r] else old(records)
    {
      if r.table == [] {
        return InvalidArgument;
      }
      var payload := EncRecord(r);
      if |payload| >= Span(4) {
        return InvalidArgument;
      }
      body := body + (LE(4, |payload|) + payload);
      records := records + [r];
      status := Ok;
    }

    /** Every record in order, exactly when the log body is the encoding of some records. */
    method ReadAll() returns (status: Status, out: seq<VersionRecord>)
      ensures status.Ok? || status.InvalidArgument?
      ensures status.Ok? ==> Holds(body, out)
      ensures forall rs :: Holds(body, rs) ==> status.Ok? && out == rs
    {
      FramesAdvance();
      FramesSound();
      var r := ReadToEnd(Frames(), body);
      StreamEnds(Frames(), body);
      if r.Fail? {
        status, out := InvalidArgument, [];
      } else {
        status, out := Ok, r.value;
        StreamCodec(Frames(), out, body);
      }
      forall rs | Holds(body, rs)
        ensures status.Ok? && out == rs
      {
        StreamCodec(Frames(), rs, body);
      }
    }
  }
}
