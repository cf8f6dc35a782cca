/** Parsing the CC event log: a Spec ID header, then TCG_PCR_EVENT2 records
    (section 10.2.2 of the TCG PC Client Platform Firmware Profile
    Specification 1.05), zero-padded to the size of its ACPI table. */
module Ccel {
  import opened Octets

  const MAX_DIGESTS: nat := 16
  const ALG_SHA1: nat := 0x0004
  const ALG_SHA256: nat := 0x000B
  const ALG_SHA384: nat := 0x000C
  const ALG_SHA512: nat := 0x000D

  datatype CcelEvent = CcelEvent(mrIndex: nat, kind: nat, sha384: Bytes, data: Bytes)
  datatype CcelError = LogTooShort | HeaderTooLong | UnsupportedAlgorithm

  function DigestSize(alg: nat): Option<nat> {
    if alg == ALG_SHA384 then Some(48)
    else if alg == ALG_SHA512 then Some(64)
    else if alg == ALG_SHA256 then Some(32)
    else if alg == ALG_SHA1 then Some(20)
    else None
  }

  // ------------------------------------------------------------- the parse

  datatype DigestRead = CutShort | Unknown | Digests(sha384: Bytes, end: nat)
  datatype RecordRead = Stop | BadAlgorithm | Read(event: Option<CcelEvent>, next: nat)

  /** count digests from pos on; the last SHA-384 one wins, sha being the one seen
      so far. */
  function ReadDigests(b: Bytes, pos: nat, count: nat, sha: Bytes): (r: DigestRead)
    ensures r.Digests? && pos <= |b| ==> pos <= r.end <= |b|
    decreases count
  {
    if count == 0 then Digests(sha, pos)
    else if pos + 2 > |b| then CutShort
    else
      var alg := ReadLe16(b, pos);
      match DigestSize(alg)
      case None => Unknown
      case Some(size) =>
        if pos + 2 + size > |b| then CutShort
        else ReadDigests(b, pos + 2 + size, count - 1, if alg == ALG_SHA384 then b[pos + 2..pos + 2 + size] else sha)
  }

  /** One record. Every record read is at least 16 bytes long. */
  function ReadRecord(b: Bytes, off: nat): (r: RecordRead)
    ensures r.Read? ==> off + 16 <= r.next <= |b|
  {
    if off + 12 > |b| then Stop
    else
      var count := ReadLe32(b, off + 8);
      if count > MAX_DIGESTS then Stop
      else match ReadDigests(b, off + 12, count, [])
        case CutShort => Stop
        case Unknown => BadAlgorithm
        case Digests(sha, pos) => FinishRecord(b, ReadLe32(b, off), ReadLe32(b, off + 4), sha, pos)
  }

  /** The event data, after the digests. */
  function FinishRecord(b: Bytes, mrIndex: nat, kind: nat, sha: Bytes, pos: nat): (r: RecordRead)
    ensures r.Read? ==> pos + 4 <= r.next <= |b|
  {
    if pos + 4 > |b| then Stop
    else
      var size := ReadLe32(b, pos);
      if pos + 4 + size > |b| then Stop
      else if kind == 0 && mrIndex == 0 && size == 0 then Stop
      else Read(if sha == [] then None else Some(CcelEvent(mrIndex, kind, sha, b[pos + 4..pos + 4 + size])),
          pos + 4 + size)
  }

  function ParseRecords(b: Bytes, off: nat): Result<seq<CcelEvent>, CcelError>
    decreases |b| - off
  {
    match ReadRecord(b, off)
    case Stop => Ok([])
    case BadAlgorithm => Err(UnsupportedAlgorithm)
    case Read(event, next) => PrependEvent(event, ParseRecords(b, next))
  }

  function PrependEvent(event: Option<CcelEvent>, r: Result<seq<CcelEvent>, CcelError>)
    : Result<seq<CcelEvent>, CcelError> {
    match (event, r)
    case (Some(e), Ok(rest)) => Ok([e] + rest)
    case _ => r
  }

  function ParseLog(b: Bytes): Result<seq<CcelEvent>, CcelError> {
    if |b| < 32 then Err(LogTooShort)
    else if 32 + ReadLe32(b, 28) > |b| then Err(HeaderTooLong)
    else ParseRecords(b, 32 + ReadLe32(b, 28))
  }

  /** The digest loop of ParseCCEL. */
  method ScanDigests(b: Bytes, start: nat, count: nat) returns (r: DigestRead)
    ensures r == ReadDigests(b, start, count, [])
  {
    var pos: nat := start;
    var sha: Bytes := [];
    for i := 0 to count
      invariant ReadDigests(b, start, count, []) == ReadDigests(b, pos, count - i, sha)
    {
      if pos + 2 > |b| {
        return CutShort;
      }
      var alg := ReadLe16(b, pos);
      var size := DigestSize(alg);
      if size.None? {
        return Unknown;
      }
      if pos + 2 + size.value > |b| {
        return CutShort;
      }
      if alg == ALG_SHA384 {
        sha := b[pos + 2..pos + 2 + size.value];
      }
      pos := pos + 2 + size.value;
    }
    return Digests(sha, pos);
  }

  /** One round of ParseCCEL's outer loop. */
  method ScanRecord(b: Bytes, off: nat) returns (r: RecordRead)
    ensures r == ReadRecord(b, off)
  {
    if off + 8 > |b| {
      return Stop;
    }
    var mrIndex, kind := ReadLe32(b, off), ReadLe32(b, off + 4);
    if off + 12 > |b| {
      return Stop;
    }
    var count := ReadLe32(b, off + 8);
    if count > MAX_DIGESTS {
      return Stop;
    }
    var digests := ScanDigests(b, off + 12, count);
    match digests
    case CutShort => return Stop;
    case Unknown => return BadAlgorithm;
    case Digests(sha, pos) => return FinishRecord(b, mrIndex, kind, sha, pos);
  }

  function Collected(events: seq<CcelEvent>, r: Result<seq<CcelEvent>, CcelError>): Result<seq<CcelEvent>, CcelError> {
    match r case Ok(rest) => Ok(events + rest) case Err(e) => Err(e)
  }

  lemma CollectedStep(events: seq<CcelEvent>, event: Option<CcelEvent>, r: Result<seq<CcelEvent>, CcelError>)
    ensures Collected([], r) == r
    ensures Collected(events, PrependEvent(event, r))
            == Collected(if event.Some? then events + [event.value] else events, r)
  {
    if r.Ok? {
      assert [] + r.value == r.value;
      if event.Some? { assert events + ([event.value] + r.value) == events + [event.value] + r.value; }
    }
  }

  /** ParseCCEL. On any bytes it reads within bounds and ends, since each round
      moves on by at least 16 bytes. */
  method ParseCcel(b: Bytes) returns (r: Result<seq<CcelEvent>, CcelError>)
    ensures r == ParseLog(b)
  {
    if |b| < 32 {
      return Err(LogTooShort);
    }
    var offset := 32 + ReadLe32(b, 28);
    if offset > |b| {
      return Err(HeaderTooLong);
    }
    var events: seq<CcelEvent> := [];
    CollectedStep([], None, ParseRecords(b, offset));
    while offset < |b|
      invariant ParseLog(b) == Collected(events, ParseRecords(b, offset))
      decreases |b| - offset
    {
      var record := ScanRecord(b, offset);
      match record {
        case Stop =>
          assert events + [] == events;
          return Ok(events);
        case BadAlgorithm => return Err(UnsupportedAlgorithm);
        case Read(event, next) =>
          CollectedStep(events, event, ParseRecords(b, next));
          if event.Some? { events := events + [event.value]; }
          offset := next;
      }
    }
    assert events + [] == events;
    return Ok(events);
  }

  // ------------------------------------------------------------- the format

  datatype AnyDigest = Digest(alg: nat, value: Bytes)
  type Digest = d: AnyDigest | d.alg < 0x1_0000 && DigestSize(d.alg) == Some(|d.value|)
    witness Digest(ALG_SHA1, Zeros(20))

  datatype AnyRecord = LogRecord(mrIndex: nat, kind: nat, digests: seq<Digest>, data: Bytes)

  /** A well-formed record other than the terminator. */
  type LogRecord = r: AnyRecord |
      && r.mrIndex < 0x1_0000_0000 && r.kind < 0x1_0000_0000 && |r.data| < 0x1_0000_0000
      && |r.digests| <= MAX_DIGESTS
      && !(r.kind == 0 && r.mrIndex == 0 && r.data == [])
    witness LogRecord(1, 1, [], [])

  function EncodeDigest(d: Digest): Bytes {
    Le16(d.alg) + d.value
  }

  function EncodeDigests(ds: seq<Digest>): Bytes {
    if ds == [] then [] else EncodeDigest(ds[0]) + EncodeDigests(ds[1..])
  }

  /** Everything of a record before its event data. */
  function EncodeHead(mrIndex: nat, kind: nat, ds: seq<Digest>): (r: Bytes)
    requires mrIndex < 0x1_0000_0000 && kind < 0x1_0000_0000 && |ds| <= MAX_DIGESTS
    ensures |r| == 12 + |EncodeDigests(ds)|
  {
    Le32(mrIndex) + Le32(kind) + Le32(|ds|) + EncodeDigests(ds)
  }

  function EncodeData(data: Bytes): (r: Bytes)
    requires |data| < 0x1_0000_0000
    ensures |r| == 4 + |data|
  {
    Le32(|data|) + data
  }

  function EncodeRecord(r: LogRecord): Bytes {
    EncodeHead(r.mrIndex, r.kind, r.digests) + EncodeData(r.data)
  }

  function EncodeRecords(rs: seq<LogRecord>): Bytes {
    if rs == [] then [] else EncodeRecord(rs[0]) + EncodeRecords(rs[1..])
  }

  /** The last SHA-384 digest of a record, empty when it has none. */
  function LastSha384(ds: seq<Digest>, sha: Bytes): Bytes {
    if ds == [] then sha else LastSha384(ds[1..], if ds[0].alg == ALG_SHA384 then ds[0].value else sha)
  }

  /** The event a record contributes, if it carries a SHA-384 digest. */
  function EventOf(r: LogRecord): Option<CcelEvent> {
    var sha := LastSha384(r.digests, []);
    if sha == [] then None else Some(CcelEvent(r.mrIndex, r.kind, sha, r.data))
  }

  function EventsOf(rs: seq<LogRecord>): seq<CcelEvent> {
    if rs == [] then []
    else (if EventOf(rs[0]).Some? then [EventOf(rs[0]).value] else []) + EventsOf(rs[1..])
  }

  /** A record contributes an event exactly when one of its digests is SHA-384. */
  lemma {:induction false} ContributesIff(ds: seq<Digest>, sha: Bytes)
    ensures LastSha384(ds, sha) == [] <==> sha == [] && forall d :: d in ds ==> d.alg != ALG_SHA384
    decreases |ds|
  {
    if ds != [] {
      var d := ds[0];
      assert |d.value| > 0;
      assert ds == [d] + ds[1..];
      ContributesIff(ds[1..], if d.alg == ALG_SHA384 then d.value else sha);
    }
  }

  lemma DigestAt(b: Bytes, pos: nat, d: Digest, rest: Bytes)
    requires At(b, pos, EncodeDigest(d) + rest)
    ensures At(b, pos + 2 + |d.value|, rest)
    ensures pos + 2 + |d.value| <= |b| && ReadLe16(b, pos) == d.alg && b[pos + 2..pos + 2 + |d.value|] == d.value
  {
    AtSplit(b, pos, EncodeDigest(d), rest);
    AtSplit(b, pos, Le16(d.alg), d.value);
    Le16At(b, pos, d.alg);
    AtSlice(b, pos + 2, d.value);
  }

  lemma DigestStep(b: Bytes, pos: nat, d: Digest, rest: Bytes, n: nat, sha: Bytes)
    requires At(b, pos, EncodeDigest(d) + rest)
    ensures At(b, pos + 2 + |d.value|, rest)
    ensures ReadDigests(b, pos, n + 1, sha) ==
            ReadDigests(b, pos + 2 + |d.value|, n, if d.alg == ALG_SHA384 then d.value else sha)
  {
    DigestAt(b, pos, d, rest);
  }

  lemma {:induction false} DigestsRead(b: Bytes, pos: nat, ds: seq<Digest>, sha: Bytes)
    requires At(b, pos, EncodeDigests(ds))
    ensures ReadDigests(b, pos, |ds|, sha) == Digests(LastSha384(ds, sha), pos + |EncodeDigests(ds)|)
    decreases |ds|
  {
    if ds != [] {
      var d, tail := ds[0], ds[1..];
      DigestStep(b, pos, d, EncodeDigests(tail), |tail|, sha);
      DigestsRead(b, pos + 2 + |d.value|, tail, if d.alg == ALG_SHA384 then d.value else sha);
    }
  }

  lemma HeadRead(b: Bytes, off: nat, mrIndex: nat, kind: nat, ds: seq<Digest>)
    requires mrIndex < 0x1_0000_0000 && kind < 0x1_0000_0000 && |ds| <= MAX_DIGESTS
    requires At(b, off, EncodeHead(mrIndex, kind, ds))
    ensures off + 12 <= |b| && ReadLe32(b, off) == mrIndex && ReadLe32(b, off + 4) == kind
            && ReadLe32(b, off + 8) == |ds|
    ensures ReadDigests(b, off + 12, |ds|, []) == Digests(LastSha384(ds, []), off + 12 + |EncodeDigests(ds)|)
  {
    var p1 := Le32(mrIndex);
    var p2 := p1 + Le32(kind);
    AtSplit(b, off, p2 + Le32(|ds|), EncodeDigests(ds));
    AtSplit(b, off, p2, Le32(|ds|));
    AtSplit(b, off, p1, Le32(kind));
    Le32At(b, off, mrIndex);
    Le32At(b, off + 4, kind);
    Le32At(b, off + 8, |ds|);
    DigestsRead(b, off + 12, ds, []);
  }

  lemma DataRead(b: Bytes, pos: nat, data: Bytes)
    requires |data| < 0x1_0000_0000 && At(b, pos, EncodeData(data))
    ensures pos + 4 + |data| <= |b| && ReadLe32(b, pos) == |data| && b[pos + 4..pos + 4 + |data|] == data
  {
    AtSplit(b, pos, Le32(|data|), data);
    Le32At(b, pos, |data|);
    AtSlice(b, pos + 4, data);
  }

  lemma FinishFrom(b: Bytes, mrIndex: nat, kind: nat, sha: Bytes, pos: nat, data: Bytes)
    requires pos + 4 + |data| <= |b| && ReadLe32(b, pos) == |data| && b[pos + 4..pos + 4 + |data|] == data
    requires !(kind == 0 && mrIndex == 0 && data == [])
    ensures FinishRecord(b, mrIndex, kind, sha, pos) ==
            Read(if sha == [] then None else Some(CcelEvent(mrIndex, kind, sha, data)), pos + 4 + |data|)
  {
  }

  /** Where a record's fields are read decides how it is read. */
  lemma ReadFrom(b: Bytes, off: nat, count: nat, sha: Bytes, pos: nat)
    requires off + 12 <= |b| && ReadLe32(b, off + 8) == count <= MAX_DIGESTS
    requires ReadDigests(b, off + 12, count, []) == Digests(sha, pos)
    ensures ReadRecord(b, off) == FinishRecord(b, ReadLe32(b, off), ReadLe32(b, off + 4), sha, pos)
  {
  }

  lemma RecordReads(b: Bytes, off: nat, r: LogRecord)
    requires At(b, off, EncodeRecord(r))
    ensures ReadRecord(b, off) == Read(EventOf(r), off + |EncodeRecord(r)|)
  {
    var pos := off + 12 + |EncodeDigests(r.digests)|;
    var sha := LastSha384(r.digests, []);
    AtSplit(b, off, EncodeHead(r.mrIndex, r.kind, r.digests), EncodeData(r.data));
    HeadRead(b, off, r.mrIndex, r.kind, r.digests);
    DataRead(b, pos, r.data);
    ReadFrom(b, off, |r.digests|, sha, pos);
    FinishFrom(b, r.mrIndex, r.kind, sha, pos, r.data);
  }

  /** Zero padding of any length ends the log. */
  lemma ZerosStop(b: Bytes, off: nat)
    requires forall i :: off <= i < |b| ==> b[i] == 0
    ensures ReadRecord(b, off) == Stop
  {
  }

  lemma RecordsStep(b: Bytes, off: nat, event: Option<CcelEvent>, next: nat, events: seq<CcelEvent>)
    requires ReadRecord(b, off) == Read(event, next) && ParseRecords(b, next) == Ok(events)
    ensures ParseRecords(b, off) == Ok((if event.Some? then [event.value] else []) + events)
  {
    assert [] + events == events;
  }

  lemma EventsCons(rs: seq<LogRecord>)
    requires rs != []
    ensures EventsOf(rs) == (if EventOf(rs[0]).Some? then [EventOf(rs[0]).value] else []) + EventsOf(rs[1..])
  {
  }

  /** The first of encoded records, and where the others stand. */
  lemma FirstRecord(b: Bytes, off: nat, rs: seq<LogRecord>)
    requires rs != [] && At(b, off, EncodeRecords(rs))
    ensures ReadRecord(b, off) == Read(EventOf(rs[0]), off + |EncodeRecord(rs[0])|)
    ensures At(b, off + |EncodeRecord(rs[0])|, EncodeRecords(rs[1..]))
    ensures |EncodeRecords(rs)| == |EncodeRecord(rs[0])| + |EncodeRecords(rs[1..])|
  {
    AtSplit(b, off, EncodeRecord(rs[0]), EncodeRecords(rs[1..]));
    RecordReads(b, off, rs[0]);
  }

  lemma {:induction false} RecordsRead(b: Bytes, off: nat, rs: seq<LogRecord>)
    requires At(b, off, EncodeRecords(rs)) && ReadRecord(b, off + |EncodeRecords(rs)|) == Stop
    ensures ParseRecords(b, off) == Ok(EventsOf(rs))
    decreases |rs|
  {
    if rs != [] {
      var next := off + |EncodeRecord(rs[0])|;
      FirstRecord(b, off, rs);
      RecordsRead(b, next, rs[1..]);
      RecordsStep(b, off, EventOf(rs[0]), next, EventsOf(rs[1..]));
      EventsCons(rs);
    }
  }

  /** A Spec ID header. */
  function Header(preamble: Bytes, spec: Bytes): (r: Bytes)
    requires |preamble| == 28 && |spec| < 0x1_0000_0000
    ensures |r| == 32 + |spec|
  {
    preamble + Le32(|spec|) + spec
  }

  lemma HeaderRead(b: Bytes, preamble: Bytes, spec: Bytes)
    requires |preamble| == 28 && |spec| < 0x1_0000_0000 && At(b, 0, Header(preamble, spec))
    ensures 32 + |spec| <= |b| && ReadLe32(b, 28) == |spec|
  {
    AtSplit(b, 0, preamble + Le32(|spec|), spec);
    AtSplit(b, 0, preamble, Le32(|spec|));
    Le32At(b, 28, |spec|);
    AtSlice(b, 32, spec);
  }

  /** b starts with a Spec ID header and the records rs, and what follows them ends
      the log: a terminator, a record cut short, or one with too many digests. */
  ghost predicate IsLog(b: Bytes, preamble: Bytes, spec: Bytes, rs: seq<LogRecord>) {
    && |preamble| == 28 && |spec| < 0x1_0000_0000
    && At(b, 0, Header(preamble, spec) + EncodeRecords(rs))
    && ReadRecord(b, 32 + |spec| + |EncodeRecords(rs)|) == Stop
  }

  /** A log parses to the events of its records, in order. */
  lemma LogReads(b: Bytes, preamble: Bytes, spec: Bytes, rs: seq<LogRecord>)
    requires IsLog(b, preamble, spec, rs)
    ensures ParseLog(b) == Ok(EventsOf(rs))
  {
    AtSplit(b, 0, Header(preamble, spec), EncodeRecords(rs));
    HeaderRead(b, preamble, spec);
    RecordsRead(b, 32 + |spec|, rs);
  }

  /** Every log of well-formed records, behind any Spec ID header and before any
      zero padding, parses to exactly the events it carries, in order. */
  lemma LogRoundTrip(preamble: Bytes, spec: Bytes, rs: seq<LogRecord>, padding: nat)
    requires |preamble| == 28 && |spec| < 0x1_0000_0000
    ensures ParseLog(Header(preamble, spec) + EncodeRecords(rs) + Zeros(padding)) == Ok(EventsOf(rs))
  {
    var log := Header(preamble, spec) + EncodeRecords(rs);
    AtPrefix(log, Zeros(padding));
    ZerosStop(log + Zeros(padding), |log|);
    LogReads(log + Zeros(padding), preamble, spec, rs);
  }

  // ----------------------------------------------------- only logs are read

  lemma DigestBack(b: Bytes, pos: nat, size: nat) returns (d: Digest)
    requires pos + 2 + size <= |b| && DigestSize(ReadLe16(b, pos)) == Some(size)
    ensures |d.value| == size && At(b, pos, EncodeDigest(d))
  {
    d := Digest(ReadLe16(b, pos), b[pos + 2..pos + 2 + size]);
    AtLe16(b, pos);
    SliceAt(b, pos + 2, pos + 2 + size);
    AtJoin(b, pos, Le16(d.alg), d.value);
  }

  lemma {:induction false} DigestsBack(b: Bytes, pos: nat, count: nat, sha: Bytes) returns (ds: seq<Digest>)
    requires pos <= |b| && ReadDigests(b, pos, count, sha).Digests?
    ensures |ds| == count && At(b, pos, EncodeDigests(ds))
    decreases count
  {
    ds := [];
    if count > 0 {
      var alg := ReadLe16(b, pos);
      var size := DigestSize(alg).value;
      var d := DigestBack(b, pos, size);
      var next := pos + 2 + size;
      var tail := DigestsBack(b, next, count - 1, if alg == ALG_SHA384 then b[pos + 2..next] else sha);
      ds := [d] + tail;
      assert ds[1..] == tail;
      AtJoin(b, pos, EncodeDigest(d), EncodeDigests(tail));
    }
  }

  lemma HeadBack(b: Bytes, off: nat) returns (ds: seq<Digest>, pos: nat)
    requires ReadRecord(b, off).Read?
    ensures off + 12 <= |b| && |ds| <= MAX_DIGESTS && pos == off + 12 + |EncodeDigests(ds)| <= |b|
    ensures At(b, off, EncodeHead(ReadLe32(b, off), ReadLe32(b, off + 4), ds))
    ensures FinishRecord(b, ReadLe32(b, off), ReadLe32(b, off + 4), LastSha384(ds, []), pos).Read?
  {
    var mrIndex, kind, count := ReadLe32(b, off), ReadLe32(b, off + 4), ReadLe32(b, off + 8);
    ds := DigestsBack(b, off + 12, count, []);
    DigestsRead(b, off + 12, ds, []);
    pos := off + 12 + |EncodeDigests(ds)|;
    AtLe32(b, off);
    AtLe32(b, off + 4);
    AtLe32(b, off + 8);
    AtJoin(b, off, Le32(mrIndex), Le32(kind));
    AtJoin(b, off, Le32(mrIndex) + Le32(kind), Le32(count));
    AtJoin(b, off, Le32(mrIndex) + Le32(kind) + Le32(count), EncodeDigests(ds));
  }

  lemma DataBack(b: Bytes, mrIndex: nat, kind: nat, sha: Bytes, pos: nat) returns (data: Bytes)
    requires FinishRecord(b, mrIndex, kind, sha, pos).Read?
    ensures |data| < 0x1_0000_0000 && !(kind == 0 && mrIndex == 0 && data == [])
    ensures At(b, pos, EncodeData(data))
  {
    var size := ReadLe32(b, pos);
    data := b[pos + 4..pos + 4 + size];
    AtLe32(b, pos);
    SliceAt(b, pos + 4, pos + 4 + size);
    AtJoin(b, pos, Le32(size), data);
  }

  lemma RecordBack(b: Bytes, off: nat) returns (r: LogRecord)
    requires ReadRecord(b, off).Read?
    ensures At(b, off, EncodeRecord(r)) && ReadRecord(b, off) == Read(EventOf(r), off + |EncodeRecord(r)|)
  {
    var ds, pos := HeadBack(b, off);
    var mrIndex, kind := ReadLe32(b, off), ReadLe32(b, off + 4);
    var data := DataBack(b, mrIndex, kind, LastSha384(ds, []), pos);
    r := LogRecord(mrIndex, kind, ds, data);
    AtJoin(b, off, EncodeHead(mrIndex, kind, ds), EncodeData(data));
    RecordReads(b, off, r);
  }

  lemma NextFails(b: Bytes, off: nat, event: Option<CcelEvent>, next: nat)
    requires ReadRecord(b, off) == Read(event, next)
    ensures ParseRecords(b, off).Err? <==> ParseRecords(b, next).Err?
    ensures ParseRecords(b, off).Err? ==> ParseRecords(b, off) == ParseRecords(b, next)
  {
  }

  lemma RecordsCons(b: Bytes, off: nat, r: LogRecord, tail: seq<LogRecord>)
    requires At(b, off, EncodeRecord(r)) && At(b, off + |EncodeRecord(r)|, EncodeRecords(tail))
    ensures At(b, off, EncodeRecords([r] + tail))
    ensures |EncodeRecords([r] + tail)| == |EncodeRecord(r)| + |EncodeRecords(tail)|
  {
    assert ([r] + tail)[1..] == tail;
    AtJoin(b, off, EncodeRecord(r), EncodeRecords(tail));
  }

  /** No record stands at end, and what does decides the parse from off on. */
  ghost predicate DecidedAt(b: Bytes, off: nat, end: nat) {
    !ReadRecord(b, end).Read? && (ParseRecords(b, off).Err? <==> ReadRecord(b, end) == BadAlgorithm)
  }

  lemma DecidedBefore(b: Bytes, off: nat, event: Option<CcelEvent>, next: nat, end: nat)
    requires ReadRecord(b, off) == Read(event, next) && DecidedAt(b, next, end)
    ensures DecidedAt(b, off, end)
  {
    NextFails(b, off, event, next);
  }

  lemma {:induction false} RecordsBack(b: Bytes, off: nat) returns (rs: seq<LogRecord>, end: nat)
    requires off <= |b|
    ensures At(b, off, EncodeRecords(rs)) && end == off + |EncodeRecords(rs)| && DecidedAt(b, off, end)
    decreases |b| - off
  {
    rs, end := [], off;
    if ReadRecord(b, off).Read? {
      var r := RecordBack(b, off);
      var next := off + |EncodeRecord(r)|;
      rs, end := RecordsBack(b, next);
      DecidedBefore(b, off, EventOf(r), next, end);
      RecordsCons(b, off, r, rs);
      rs := [r] + rs;
    } else {
      NoRecord(b, off);
    }
  }

  lemma NoRecord(b: Bytes, off: nat)
    requires !ReadRecord(b, off).Read?
    ensures DecidedAt(b, off, off)
  {
  }

  lemma HeaderBack(b: Bytes) returns (preamble: Bytes, spec: Bytes)
    requires 32 <= |b| && 32 + ReadLe32(b, 28) <= |b|
    ensures |preamble| == 28 && |spec| == ReadLe32(b, 28) && At(b, 0, Header(preamble, spec))
  {
    var size := ReadLe32(b, 28);
    preamble, spec := b[..28], b[32..32 + size];
    SliceAt(b, 0, 28);
    AtLe32(b, 28);
    SliceAt(b, 32, 32 + size);
    AtJoin(b, 0, preamble, Le32(size));
    AtJoin(b, 0, preamble + Le32(size), spec);
  }

  lemma LogBack(b: Bytes) returns (preamble: Bytes, spec: Bytes, rs: seq<LogRecord>)
    requires ParseLog(b).Ok?
    ensures IsLog(b, preamble, spec, rs)
  {
    preamble, spec := HeaderBack(b);
    var end;
    rs, end := RecordsBack(b, 32 + |spec|);
    AtJoin(b, 0, Header(preamble, spec), EncodeRecords(rs));
  }

  /** Bytes parse exactly when they are a header, well-formed records and something
      that ends the log, and then to those records' SHA-384 events. */
  lemma LogExact(b: Bytes, events: seq<CcelEvent>)
    ensures ParseLog(b) == Ok(events) <==>
            exists preamble, spec, rs :: IsLog(b, preamble, spec, rs) && events == EventsOf(rs)
  {
    if ParseLog(b) == Ok(events) {
      var preamble, spec, rs := LogBack(b);
      LogReads(b, preamble, spec, rs);
    }
    if preamble, spec, rs :| IsLog(b, preamble, spec, rs) && events == EventsOf(rs) {
      LogReads(b, preamble, spec, rs);
    }
  }

  // ------------------------------------------------ what ends or fails a log

  /** The algorithms of the TCG registry a log may use, and their digest sizes. */
  lemma SizesExact(alg: nat, size: nat)
    ensures DigestSize(alg) == Some(size) <==>
            || (alg == 0x4 && size == 20) || (alg == 0xB && size == 32)
            || (alg == 0xC && size == 48) || (alg == 0xD && size == 64)
    ensures ALG_SHA384 == 0xC && MAX_DIGESTS == 16
  {
  }

  /** One record, byte for byte. */
  lemma RecordSpelled()
    ensures var sha1 := Zeros(20);
            EncodeRecord(LogRecord(1, 0x203, [Digest(ALG_SHA1, sha1)], [9])) ==
            [1, 0, 0, 0] + [3, 2, 0, 0] + [1, 0, 0, 0] + [4, 0] + sha1 + [1, 0, 0, 0] + [9]
  {
    var d: Digest := Digest(ALG_SHA1, Zeros(20));
    assert [d][1..] == [] && EncodeDigests([d]) == EncodeDigest(d) + EncodeDigests([]) == [4, 0] + Zeros(20);
  }

  /** The start of a record whose next digest, behind ds, has an algorithm no size is
      known for. */
  ghost predicate UnknownAt(b: Bytes, off: nat, mrIndex: nat, kind: nat, count: nat, ds: seq<Digest>, alg: nat) {
    && mrIndex < 0x1_0000_0000 && kind < 0x1_0000_0000 && |ds| < count <= MAX_DIGESTS && alg < 0x1_0000
    && alg !in {0x4, 0xB, 0xC, 0xD}
    && At(b, off, Le32(mrIndex) + Le32(kind) + Le32(count) + EncodeDigests(ds) + Le16(alg))
  }

  ghost predicate UnknownRecordAt(b: Bytes, off: nat) {
    exists mrIndex, kind, count, ds, alg :: UnknownAt(b, off, mrIndex, kind, count, ds, alg)
  }

  ghost predicate RecordAt(b: Bytes, off: nat) {
    exists r: LogRecord :: At(b, off, EncodeRecord(r))
  }

  lemma {:induction false} UnknownBack(b: Bytes, pos: nat, count: nat, sha: Bytes) returns (ds: seq<Digest>, alg: nat)
    requires pos <= |b| && ReadDigests(b, pos, count, sha) == Unknown
    ensures |ds| < count && alg < 0x1_0000 && DigestSize(alg).None? && At(b, pos, EncodeDigests(ds) + Le16(alg))
    decreases count
  {
    alg := ReadLe16(b, pos);
    ds := [];
    match DigestSize(alg)
    case None =>
      AtLe16(b, pos);
      assert EncodeDigests([]) + Le16(alg) == Le16(alg);
    case Some(size) =>
      var d := DigestBack(b, pos, size);
      var next := pos + 2 + size;
      var tail, last := UnknownBack(b, next, count - 1, if alg == ALG_SHA384 then b[pos + 2..next] else sha);
      AtJoin(b, pos, EncodeDigest(d), EncodeDigests(tail) + Le16(last));
      DigestsCons(d, tail, Le16(last));
      ds, alg := [d] + tail, last;
  }

  lemma DigestsCons(d: Digest, tail: seq<Digest>, rest: Bytes)
    ensures EncodeDigest(d) + (EncodeDigests(tail) + rest) == EncodeDigests([d] + tail) + rest
  {
    assert ([d] + tail)[1..] == tail;
  }

  lemma {:induction false} UnknownMet(b: Bytes, pos: nat, ds: seq<Digest>, alg: nat, count: nat, sha: Bytes)
    requires |ds| < count && alg < 0x1_0000 && DigestSize(alg).None? && At(b, pos, EncodeDigests(ds) + Le16(alg))
    ensures ReadDigests(b, pos, count, sha) == Unknown
    decreases |ds|
  {
    if ds == [] {
      assert EncodeDigests([]) + Le16(alg) == Le16(alg);
      Le16At(b, pos, alg);
    } else {
      var d, tail := ds[0], ds[1..];
      DigestsCons(d, tail, Le16(alg));
      assert [d] + tail == ds;
      DigestStep(b, pos, d, EncodeDigests(tail) + Le16(alg), count - 1, sha);
      UnknownMet(b, pos + 2 + |d.value|, tail, alg, count - 1, if d.alg == ALG_SHA384 then d.value else sha);
    }
  }

  lemma HeadOfUnknown(b: Bytes, off: nat, mrIndex: nat, kind: nat, count: nat, rest: Bytes)
    requires mrIndex < 0x1_0000_0000 && kind < 0x1_0000_0000 && count < 0x1_0000_0000
    ensures At(b, off, Le32(mrIndex) + Le32(kind) + Le32(count) + rest) <==>
            && off + 12 <= |b| && ReadLe32(b, off) == mrIndex && ReadLe32(b, off + 4) == kind
            && ReadLe32(b, off + 8) == count && At(b, off + 12, rest)
  {
    var p1 := Le32(mrIndex);
    var p2 := p1 + Le32(kind);
    var p3 := p2 + Le32(count);
    if At(b, off, p3 + rest) {
      AtSplit(b, off, p3, rest);
      AtSplit(b, off, p2, Le32(count));
      AtSplit(b, off, p1, Le32(kind));
      Le32At(b, off, mrIndex);
      Le32At(b, off + 4, kind);
      Le32At(b, off + 8, count);
    }
    if off + 12 <= |b| && ReadLe32(b, off) == mrIndex && ReadLe32(b, off + 4) == kind
       && ReadLe32(b, off + 8) == count && At(b, off + 12, rest)
    {
      AtLe32(b, off);
      AtLe32(b, off + 4);
      AtLe32(b, off + 8);
      AtJoin(b, off, p1, Le32(kind));
      AtJoin(b, off, p2, Le32(count));
      AtJoin(b, off, p3, rest);
    }
  }

  lemma UnknownExact(b: Bytes, off: nat)
    ensures ReadRecord(b, off) == BadAlgorithm <==> UnknownRecordAt(b, off)
  {
    if ReadRecord(b, off) == BadAlgorithm {
      var mrIndex, kind, count := ReadLe32(b, off), ReadLe32(b, off + 4), ReadLe32(b, off + 8);
      var ds, alg := UnknownBack(b, off + 12, count, []);
      HeadOfUnknown(b, off, mrIndex, kind, count, EncodeDigests(ds) + Le16(alg));
      Regroup(Le32(mrIndex) + Le32(kind) + Le32(count), EncodeDigests(ds), Le16(alg));
      SizesExact(alg, 0);
      assert UnknownAt(b, off, mrIndex, kind, count, ds, alg);
    }
    if mrIndex, kind, count, ds, alg :| UnknownAt(b, off, mrIndex, kind, count, ds, alg) {
      Regroup(Le32(mrIndex) + Le32(kind) + Le32(count), EncodeDigests(ds), Le16(alg));
      HeadOfUnknown(b, off, mrIndex, kind, count, EncodeDigests(ds) + Le16(alg));
      UnknownMet(b, off + 12, ds, alg, count, []);
    }
  }

  lemma Regroup(a: Bytes, b: Bytes, c: Bytes)
    ensures a + b + c == a + (b + c)
  {
  }

  /** A record is read exactly where one is encoded, refused exactly where one with an
      unknown algorithm starts, and anywhere else the log ends. */
  lemma ReadExact(b: Bytes, off: nat)
    ensures ReadRecord(b, off).Read? <==> RecordAt(b, off)
    ensures ReadRecord(b, off) == BadAlgorithm <==> UnknownRecordAt(b, off)
    ensures ReadRecord(b, off) == Stop <==> !RecordAt(b, off) && !UnknownRecordAt(b, off)
  {
    UnknownExact(b, off);
    if ReadRecord(b, off).Read? {
      var r := RecordBack(b, off);
    }
    if r: LogRecord :| At(b, off, EncodeRecord(r)) {
      RecordReads(b, off, r);
    }
  }

  lemma {:induction false} FailingRead(b: Bytes, off: nat, rs: seq<LogRecord>)
    requires At(b, off, EncodeRecords(rs)) && ReadRecord(b, off + |EncodeRecords(rs)|) == BadAlgorithm
    ensures ParseRecords(b, off) == Err(UnsupportedAlgorithm)
    decreases |rs|
  {
    if rs != [] {
      var next := off + |EncodeRecord(rs[0])|;
      FirstRecord(b, off, rs);
      assert next + |EncodeRecords(rs[1..])| == off + |EncodeRecords(rs)|;
      FailingRead(b, next, rs[1..]);
      NextFails(b, off, EventOf(rs[0]), next);
    }
  }

  /** b starts with a Spec ID header and the records rs, and then with a record whose
      algorithm is unknown. */
  ghost predicate IsFailingLog(b: Bytes, preamble: Bytes, spec: Bytes, rs: seq<LogRecord>) {
    && |preamble| == 28 && |spec| < 0x1_0000_0000
    && At(b, 0, Header(preamble, spec) + EncodeRecords(rs))
    && UnknownRecordAt(b, 32 + |spec| + |EncodeRecords(rs)|)
  }

  lemma FailingLogBack(b: Bytes) returns (preamble: Bytes, spec: Bytes, rs: seq<LogRecord>)
    requires |b| >= 32 && 32 + ReadLe32(b, 28) <= |b| && ParseRecords(b, 32 + ReadLe32(b, 28)).Err?
    ensures IsFailingLog(b, preamble, spec, rs)
  {
    preamble, spec := HeaderBack(b);
    var end;
    rs, end := RecordsBack(b, 32 + |spec|);
    AtJoin(b, 0, Header(preamble, spec), EncodeRecords(rs));
    UnknownExact(b, 32 + |spec| + |EncodeRecords(rs)|);
  }

  lemma FailingLogRead(b: Bytes, preamble: Bytes, spec: Bytes, rs: seq<LogRecord>)
    requires IsFailingLog(b, preamble, spec, rs)
    ensures ParseLog(b) == Err(UnsupportedAlgorithm)
  {
    AtSplit(b, 0, Header(preamble, spec), EncodeRecords(rs));
    HeaderRead(b, preamble, spec);
    UnknownExact(b, 32 + |spec| + |EncodeRecords(rs)|);
    FailingRead(b, 32 + |spec|, rs);
  }

  /** A log is refused for its algorithm exactly when it is such; for its size exactly
      when it holds no header, or not all of the one it announces. */
  lemma RefusedExact(b: Bytes)
    ensures ParseLog(b) == Err(UnsupportedAlgorithm) <==>
            exists preamble, spec, rs :: IsFailingLog(b, preamble, spec, rs)
    ensures ParseLog(b) == Err(LogTooShort) <==> |b| < 32
    ensures ParseLog(b) == Err(HeaderTooLong) <==> |b| >= 32 && 32 + ReadLe32(b, 28) > |b|
  {
    OnlyUnsupported(b);
    if ParseLog(b) == Err(UnsupportedAlgorithm) {
      var preamble, spec, rs := FailingLogBack(b);
    }
    if preamble, spec, rs :| IsFailingLog(b, preamble, spec, rs) {
      FailingLogRead(b, preamble, spec, rs);
    }
  }

  lemma OnlyUnsupported(b: Bytes)
    ensures |b| >= 32 && 32 + ReadLe32(b, 28) <= |b| && ParseLog(b).Err? ==>
              ParseLog(b) == Err(UnsupportedAlgorithm) && ParseRecords(b, 32 + ReadLe32(b, 28)).Err?
  {
    if |b| >= 32 && 32 + ReadLe32(b, 28) <= |b| { OneError(b, 32 + ReadLe32(b, 28)); }
  }

  lemma {:induction false} OneError(b: Bytes, off: nat)
    ensures ParseRecords(b, off).Err? ==> ParseRecords(b, off) == Err(UnsupportedAlgorithm)
    decreases |b| - off
  {
    if ReadRecord(b, off).Read? { OneError(b, ReadRecord(b, off).next); }
  }

  /** k is the last SHA-384 digest of a record. */
  ghost predicate LastSha384At(ds: seq<Digest>, k: int) {
    0 <= k < |ds| && ds[k].alg == 0xC && forall j :: k < j < |ds| ==> ds[j].alg != 0xC
  }

  lemma {:induction false} NoSha384(ds: seq<Digest>, sha: Bytes)
    requires forall i :: 0 <= i < |ds| ==> ds[i].alg != 0xC
    ensures LastSha384(ds, sha) == sha
    decreases |ds|
  {
    if ds != [] { NoSha384(ds[1..], sha); }
  }

  lemma {:induction false} LastExact(ds: seq<Digest>, k: nat, sha: Bytes)
    requires LastSha384At(ds, k)
    ensures LastSha384(ds, sha) == ds[k].value
    decreases |ds|
  {
    var tail := ds[1..];
    if k == 0 {
      NoSha384(tail, ds[0].value);
    } else {
      LastExact(tail, k - 1, if ds[0].alg == ALG_SHA384 then ds[0].value else sha);
    }
  }

  lemma {:induction false} HasLast(ds: seq<Digest>, i: nat) returns (k: nat)
    requires i < |ds| && ds[i].alg == 0xC
    ensures LastSha384At(ds, k)
    decreases |ds| - i
  {
    if j :| i < j < |ds| && ds[j].alg == 0xC { k := HasLast(ds, j); } else { k := i; }
  }

  /** A record's event carries its last SHA-384 digest, its register, type and data; a
      record without one has none. */
  lemma EventExact(r: LogRecord, e: CcelEvent)
    ensures EventOf(r) == Some(e) <==>
            && e.mrIndex == r.mrIndex && e.kind == r.kind && e.data == r.data
            && exists k :: LastSha384At(r.digests, k) && e.sha384 == r.digests[k].value
  {
    if i :| 0 <= i < |r.digests| && r.digests[i].alg == 0xC {
      var k := HasLast(r.digests, i);
      LastExact(r.digests, k, []);
      SizesExact(0xC, |r.digests[k].value|);
      assert forall j :: LastSha384At(r.digests, j) ==> j == k;
    } else {
      NoSha384(r.digests, []);
    }
  }

  lemma EventsFirst(r: LogRecord, rest: seq<LogRecord>)
    ensures EventsOf([r] + rest) == (if EventOf(r).Some? then [EventOf(r).value] else []) + EventsOf(rest)
  {
    assert ([r] + rest)[1..] == rest;
  }

  /** Events come in the order of their records. */
  lemma {:induction false} EventsInOrder(rs: seq<LogRecord>, r: LogRecord)
    ensures EventsOf(rs + [r]) == EventsOf(rs) + if EventOf(r).Some? then [EventOf(r).value] else []
    decreases |rs|
  {
    if rs == [] {
      EventsFirst(r, []);
      assert rs + [r] == [r] + [];
    } else {
      var first, rest := rs[0], rs[1..];
      EventsInOrder(rest, r);
      EventsFirst(first, rest + [r]);
      EventsFirst(first, rest);
      assert rs + [r] == [first] + (rest + [r]) && rs == [first] + rest;
    }
  }

  /** Only register 0, type 0 and no data together end a log. */
  lemma TerminatorExact(mrIndex: nat, kind: nat, data: Bytes)
    requires mrIndex < 0x1_0000_0000 && kind < 0x1_0000_0000 && |data| < 0x1_0000_0000
    ensures ReadRecord(EncodeHead(mrIndex, kind, []) + EncodeData(data), 0) ==
            if mrIndex == 0 && kind == 0 && data == [] then Stop else Read(None, 16 + |data|)
  {
    var head := EncodeHead(mrIndex, kind, []);
    var b := head + EncodeData(data);
    AtSlice(b, 0, b);
    AtSplit(b, 0, head, EncodeData(data));
    HeadRead(b, 0, mrIndex, kind, []);
    DataRead(b, 12, data);
    ReadFrom(b, 0, 0, [], 12);
  }
}
