/**
 The binary record format of `tracing/nvme-trace/src/lib.rs`: record types, the
 wire layout, and the parser. `Serialize` is the reference layout; the parser is
 written the way the source reads bytes, and the two are proved inverse.
 */
module Records {
  import opened Bytes

  const MAGIC: u32 := 0x4e56_4d45
  const VERSION: byte := 1
  const SUBMIT: byte := 0
  const COMPLETE: byte := 1

  const HEADER_LEN: nat := 24
  const SUBMIT_FIXED_LEN: nat := 100
  const COMPLETE_LEN: nat := 40
  const SQE_LEN: nat := 64
  const PRP_ENTRY_LEN: nat := 8
  const SGL_DESC_LEN: nat := 16

  datatype Reason =
    | ShorterThanHeader
    | LengthMismatch
    | SubmitTooShort
    | TailMismatch
    | CompleteSize

  datatype TraceError =
    | IoError
    | TruncatedHeader(offset: nat, got: nat)
    | TruncatedPayload(offset: nat, expected: nat, got: nat)
    | InvalidMagic(offset: nat, magic: u32)
    | UnsupportedVersion(offset: nat, version: byte)
    | UnknownType(offset: nat, recordType: byte)
    | InvalidLength(offset: nat, recordType: byte, len: nat, reason: Reason)

  datatype Result<+T> = Ok(value: T) | Err(error: TraceError) {
    predicate IsFailure() {
      Err?
    }

    function PropagateFailure<U>(): (r: Result<U>)
      requires Err?
    {
      Err(error)
    }

    function Extract(): T
      requires Ok?
    {
      value
    }
  }

  datatype Option<+T> = None | Some(value: T)

  datatype Header = Header(
    magic: u32, version: byte, recordType: byte, len: u16,
    timestampNs: u64, seqNo: u32, ctrlId: byte, qid: byte, cid: u16)

  datatype SglDesc = SglDesc(addr: u64, length: u32, reserved: seq<byte>, descType: byte)

  datatype SubmitTail = Prp(prps: seq<u64>) | Sgl(descs: seq<SglDesc>)

  datatype SubmitRecord = SubmitRecord(
    header: Header, sqe: seq<byte>, dataLen: u32, metaLen: u32,
    useSgl: bool, singleSegment: bool, nrEntries: u16, tail: SubmitTail)

  datatype CompleteRecord = CompleteRecord(
    header: Header, result: u64, sqHead: u16, sqId: u16, status: u16, retries: byte)

  datatype TraceRecord = Submit(submit: SubmitRecord) | Complete(complete: CompleteRecord) {
    function Hdr(): Header {
      match this
      case Submit(s) => s.header
      case Complete(c) => c.header
    }
  }

  datatype RawRecord = RawRecord(header: Header, record: TraceRecord, bytes: seq<byte>, offset: nat)

  // ---------------------------------------------------------------- layout

  function HeaderImage(h: Header): (b: seq<byte>)
    ensures |b| == HEADER_LEN
  {
    Put32(h.magic) + [h.version, h.recordType] + Put16(h.len) + Put64(h.timestampNs)
    + Put32(h.seqNo) + [h.ctrlId, h.qid] + Put16(h.cid)
  }

  function Flag(b: bool): byte {
    if b then 1 else 0
  }

  /** The 100 fixed bytes of a submit record. */
  function SubmitFixedImage(h: Header, sqe: seq<byte>, dataLen: u32, metaLen: u32,
                            useSgl: bool, singleSegment: bool, nrEntries: u16): (b: seq<byte>)
    requires |sqe| == SQE_LEN
    ensures |b| == SUBMIT_FIXED_LEN
  {
    HeaderImage(h) + sqe + Put32(dataLen) + Put32(metaLen)
    + [Flag(useSgl), Flag(singleSegment)] + Put16(nrEntries)
  }

  function CompleteImage(h: Header, result: u64, sqHead: u16, sqId: u16, status: u16, retries: byte): (b: seq<byte>)
    ensures |b| == COMPLETE_LEN
  {
    HeaderImage(h) + Put64(result) + Put16(sqHead) + Put16(sqId) + Put16(status) + [retries, 0]
  }

  function PrpImage(es: seq<u64>): (b: seq<byte>)
    ensures |b| == PRP_ENTRY_LEN * |es|
  {
    if es == [] then [] else Put64(es[0]) + PrpImage(es[1..])
  }

  predicate DescWf(d: SglDesc) {
    |d.reserved| == 3
  }

  function DescImage(d: SglDesc): (b: seq<byte>)
    requires DescWf(d)
    ensures |b| == SGL_DESC_LEN
  {
    Put64(d.addr) + Put32(d.length) + d.reserved + [d.descType]
  }

  function SglImage(ds: seq<SglDesc>): (b: seq<byte>)
    requires forall d <- ds :: DescWf(d)
    ensures |b| == SGL_DESC_LEN * |ds|
  {
    if ds == [] then [] else DescImage(ds[0]) + SglImage(ds[1..])
  }

  predicate TailWf(t: SubmitTail) {
    t.Sgl? ==> forall d <- t.descs :: DescWf(d)
  }

  function TailImage(t: SubmitTail): (b: seq<byte>)
    requires TailWf(t)
  {
    match t
    case Prp(es) => PrpImage(es)
    case Sgl(ds) => SglImage(ds)
  }

  function TailCount(t: SubmitTail): nat {
    match t
    case Prp(es) => |es|
    case Sgl(ds) => |ds|
  }

  predicate HeaderWf(h: Header, recordType: byte, len: nat) {
    h.magic == MAGIC && h.version == VERSION && h.recordType == recordType && h.len == len
  }

  /** Records that have an image: lengths, counts and tags agree. */
  predicate RecordWf(r: TraceRecord) {
    match r
    case Submit(s) =>
      && |s.sqe| == SQE_LEN
      && TailWf(s.tail)
      && s.useSgl == s.tail.Sgl?
      && s.nrEntries == TailCount(s.tail)
      && HeaderWf(s.header, SUBMIT, SUBMIT_FIXED_LEN + |TailImage(s.tail)|)
    case Complete(c) => HeaderWf(c.header, COMPLETE, COMPLETE_LEN)
  }

  function Serialize(r: TraceRecord): (b: seq<byte>)
    requires RecordWf(r)
    ensures |b| == r.Hdr().len >= COMPLETE_LEN
  {
    match r
    case Submit(s) =>
      SubmitFixedImage(s.header, s.sqe, s.dataLen, s.metaLen, s.useSgl, s.singleSegment, s.nrEntries)
      + TailImage(s.tail)
    case Complete(c) => CompleteImage(c.header, c.result, c.sqHead, c.sqId, c.status, c.retries)
  }

  // ---------------------------------------------------------------- parser

  function HeaderOf(b: seq<byte>): Header
    requires |b| == HEADER_LEN
  {
    Header(Get32(b[0..4]), b[4], b[5], Get16(b[6..8]), Get64(b[8..16]),
           Get32(b[16..20]), b[20], b[21], Get16(b[22..24]))
  }

  function ParseHeader(b: seq<byte>, offset: nat): (r: Result<Header>)
    requires |b| == HEADER_LEN
    ensures r.Ok? <==> HeaderOf(b).magic == MAGIC && HeaderOf(b).version == VERSION
  {
    var h := HeaderOf(b);
    if h.magic != MAGIC then Err(InvalidMagic(offset, h.magic))
    else if h.version != VERSION then Err(UnsupportedVersion(offset, h.version))
    else Ok(h)
  }

  function PrpEntries(b: seq<byte>): (es: seq<u64>)
    requires |b| % PRP_ENTRY_LEN == 0
    ensures |es| * PRP_ENTRY_LEN == |b|
  {
    if b == [] then [] else [Get64(b[..8])] + PrpEntries(b[8..])
  }

  function DescOf(b: seq<byte>): (d: SglDesc)
    requires |b| == SGL_DESC_LEN
    ensures DescWf(d)
  {
    SglDesc(Get64(b[0..8]), Get32(b[8..12]), b[12..15], b[15])
  }

  function SglEntries(b: seq<byte>): (ds: seq<SglDesc>)
    requires |b| % SGL_DESC_LEN == 0
    ensures |ds| * SGL_DESC_LEN == |b|
    ensures forall d <- ds :: DescWf(d)
  {
    if b == [] then [] else [DescOf(b[..16])] + SglEntries(b[16..])
  }

  function EntryLen(useSgl: bool): nat {
    if useSgl then SGL_DESC_LEN else PRP_ENTRY_LEN
  }

  function TailOf(b: seq<byte>, useSgl: bool): (t: SubmitTail)
    requires |b| % EntryLen(useSgl) == 0
    ensures TailWf(t) && t.Sgl? == useSgl && TailCount(t) * EntryLen(useSgl) == |b|
  {
    if useSgl then Sgl(SglEntries(b)) else Prp(PrpEntries(b))
  }

  function ParseSubmit(h: Header, b: seq<byte>, offset: nat): (r: Result<SubmitRecord>)
  {
    if |b| < SUBMIT_FIXED_LEN then
      Err(InvalidLength(offset, h.recordType, |b|, SubmitTooShort))
    else
      var useSgl := b[96] != 0;
      var nr := Get16(b[98..100]);
      if |b| - SUBMIT_FIXED_LEN != nr * EntryLen(useSgl) then
        Err(InvalidLength(offset, h.recordType, |b|, TailMismatch))
      else
        Ok(SubmitRecord(h, b[24..88], Get32(b[88..92]), Get32(b[92..96]), useSgl, b[97] != 0, nr,
                        TailOf(b[SUBMIT_FIXED_LEN..], useSgl)))
  }

  function ParseComplete(h: Header, b: seq<byte>, offset: nat): (r: Result<CompleteRecord>)
  {
    if |b| != COMPLETE_LEN then
      Err(InvalidLength(offset, h.recordType, |b|, CompleteSize))
    else
      Ok(CompleteRecord(h, Get64(b[24..32]), Get16(b[32..34]), Get16(b[34..36]), Get16(b[36..38]), b[38]))
  }

  function ParseRecordBytes(b: seq<byte>, offset: nat): (r: Result<RawRecord>)
    ensures r.Ok? ==> r.value.bytes == b && r.value.offset == offset && |b| >= COMPLETE_LEN
    ensures r.Err? ==> r.error != IoError && !r.error.TruncatedPayload?
    ensures r.Err? && |b| >= HEADER_LEN ==> !r.error.TruncatedHeader?
  {
    if |b| < HEADER_LEN then
      Err(TruncatedHeader(offset, |b|))
    else
      var h :- ParseHeader(b[..HEADER_LEN], offset);
      if h.len != |b| then
        Err(InvalidLength(offset, h.recordType, h.len, LengthMismatch))
      else if h.recordType == SUBMIT then
        var s :- ParseSubmit(h, b, offset);
        Ok(RawRecord(h, Submit(s), b, offset))
      else if h.recordType == COMPLETE then
        var c :- ParseComplete(h, b, offset);
        Ok(RawRecord(h, Complete(c), b, offset))
      else
        Err(UnknownType(offset, h.recordType))
  }

  // ---------------------------------------------------------------- inverses

  lemma HeaderOfImage(h: Header)
    ensures HeaderOf(HeaderImage(h)) == h
  {
    var b := HeaderImage(h);
    assert b[0..4] == Put32(h.magic);
    assert b[6..8] == Put16(h.len);
    assert b[8..16] == Put64(h.timestampNs);
    assert b[16..20] == Put32(h.seqNo);
    assert b[22..24] == Put16(h.cid);
  }

  lemma ImageOfHeader(b: seq<byte>)
    requires |b| == HEADER_LEN
    ensures HeaderImage(HeaderOf(b)) == b
  {
    PutGet32(b[0..4]);
    PutGet16(b[6..8]);
    PutGet64(b[8..16]);
    PutGet32(b[16..20]);
    PutGet16(b[22..24]);
  }

  lemma {:induction false} PrpInverse(es: seq<u64>)
    ensures PrpEntries(PrpImage(es)) == es
  {
    if es != [] {
      var b := PrpImage(es);
      assert b[..8] == Put64(es[0]);
      assert b[8..] == PrpImage(es[1..]);
      PrpInverse(es[1..]);
    }
  }

  lemma {:induction false} PrpImageOf(b: seq<byte>)
    requires |b| % PRP_ENTRY_LEN == 0
    ensures PrpImage(PrpEntries(b)) == b
  {
    if b != [] {
      PutGet64(b[..8]);
      PrpImageOf(b[8..]);
      assert PrpEntries(b)[1..] == PrpEntries(b[8..]);
    }
  }

  lemma DescInverse(d: SglDesc)
    requires DescWf(d)
    ensures DescOf(DescImage(d)) == d
  {
    var b := DescImage(d);
    assert b[0..8] == Put64(d.addr);
    assert b[8..12] == Put32(d.length);
    assert b[12..15] == d.reserved;
  }

  lemma DescImageOf(b: seq<byte>)
    requires |b| == SGL_DESC_LEN
    ensures DescImage(DescOf(b)) == b
  {
    PutGet64(b[0..8]);
    PutGet32(b[8..12]);
  }

  lemma {:induction false} SglInverse(ds: seq<SglDesc>)
    requires forall d <- ds :: DescWf(d)
    ensures SglEntries(SglImage(ds)) == ds
  {
    if ds != [] {
      var b := SglImage(ds);
      assert b[..16] == DescImage(ds[0]);
      assert b[16..] == SglImage(ds[1..]);
      DescInverse(ds[0]);
      SglInverse(ds[1..]);
    }
  }

  lemma {:induction false} SglImageOf(b: seq<byte>)
    requires |b| % SGL_DESC_LEN == 0
    ensures SglImage(SglEntries(b)) == b
  {
    if b != [] {
      DescImageOf(b[..16]);
      SglImageOf(b[16..]);
      assert SglEntries(b)[1..] == SglEntries(b[16..]);
    }
  }

  lemma TailInverse(t: SubmitTail)
    requires TailWf(t)
    ensures |TailImage(t)| == TailCount(t) * EntryLen(t.Sgl?)
    ensures TailOf(TailImage(t), t.Sgl?) == t
  {
    match t {
      case Prp(es) => PrpInverse(es);
      case Sgl(ds) => SglInverse(ds);
    }
  }

  lemma TailImageOf(b: seq<byte>, useSgl: bool)
    requires |b| % EntryLen(useSgl) == 0
    ensures TailImage(TailOf(b, useSgl)) == b
  {
    if useSgl {
      SglImageOf(b);
    } else {
      PrpImageOf(b);
    }
  }

  /** What the parser's fixed-offset reads see in a fixed submit image followed by any tail bytes. */
  lemma SubmitFixedFields(h: Header, sqe: seq<byte>, dataLen: u32, metaLen: u32,
                          useSgl: bool, singleSegment: bool, nrEntries: u16, tail: seq<byte>)
    requires |sqe| == SQE_LEN
    ensures var b := SubmitFixedImage(h, sqe, dataLen, metaLen, useSgl, singleSegment, nrEntries) + tail;
            && HeaderOf(b[..HEADER_LEN]) == h
            && b[24..88] == sqe && Get32(b[88..92]) == dataLen && Get32(b[92..96]) == metaLen
            && (b[96] != 0) == useSgl && (b[97] != 0) == singleSegment && Get16(b[98..100]) == nrEntries
            && b[SUBMIT_FIXED_LEN..] == tail
  {
    var b := SubmitFixedImage(h, sqe, dataLen, metaLen, useSgl, singleSegment, nrEntries) + tail;
    assert b[..HEADER_LEN] == HeaderImage(h);
    HeaderOfImage(h);
    assert b[88..92] == Put32(dataLen);
    assert b[92..96] == Put32(metaLen);
    assert b[98..100] == Put16(nrEntries);
  }

  lemma CompleteFields(h: Header, result: u64, sqHead: u16, sqId: u16, status: u16, retries: byte)
    ensures var b := CompleteImage(h, result, sqHead, sqId, status, retries);
            && HeaderOf(b[..HEADER_LEN]) == h
            && Get64(b[24..32]) == result && Get16(b[32..34]) == sqHead && Get16(b[34..36]) == sqId
            && Get16(b[36..38]) == status && b[38] == retries
  {
    var b := CompleteImage(h, result, sqHead, sqId, status, retries);
    assert b[..HEADER_LEN] == HeaderImage(h);
    HeaderOfImage(h);
    assert b[24..32] == Put64(result);
    assert b[32..34] == Put16(sqHead);
    assert b[34..36] == Put16(sqId);
    assert b[36..38] == Put16(status);
  }

  /** Every well-formed record parses back from its image, whatever the stream offset. */
  lemma ParseSerialize(r: TraceRecord, offset: nat)
    requires RecordWf(r)
    ensures ParseRecordBytes(Serialize(r), offset) == Ok(RawRecord(r.Hdr(), r, Serialize(r), offset))
  {
    match r {
      case Submit(s) =>
        TailInverse(s.tail);
        SubmitFixedFields(s.header, s.sqe, s.dataLen, s.metaLen, s.useSgl, s.singleSegment, s.nrEntries,
                          TailImage(s.tail));
      case Complete(c) =>
        CompleteFields(c.header, c.result, c.sqHead, c.sqId, c.status, c.retries);
    }
  }

  /** The bytes with the parts the parser does not keep made canonical: the two
      submit flags as 0 or 1, the reserved last byte of a completion as 0. */
  function Canonical(b: seq<byte>): (c: seq<byte>)
    requires |b| >= HEADER_LEN
    ensures |c| == |b|
  {
    if b[5] == SUBMIT && |b| >= SUBMIT_FIXED_LEN then
      b[96 := Flag(b[96] != 0)][97 := Flag(b[97] != 0)]
    else if b[5] == COMPLETE && |b| == COMPLETE_LEN then b[39 := 0]
    else b
  }

  lemma SplitFixed(b: seq<byte>)
    requires |b| >= SUBMIT_FIXED_LEN
    ensures b == b[..24] + b[24..88] + b[88..92] + b[92..96] + [b[96], b[97]] + b[98..100] + b[100..]
  {
  }

  lemma SplitComplete(b: seq<byte>)
    requires |b| == COMPLETE_LEN
    ensures b == b[..24] + b[24..32] + b[32..34] + b[34..36] + b[36..38] + [b[38], b[39]]
  {
  }

  lemma SubmitImageOf(h: Header, b: seq<byte>, offset: nat)
    requires |b| >= SUBMIT_FIXED_LEN && b[5] == SUBMIT
    requires HeaderImage(h) == b[..HEADER_LEN]
    requires ParseSubmit(h, b, offset).Ok?
    ensures var s := ParseSubmit(h, b, offset).value;
            SubmitFixedImage(h, s.sqe, s.dataLen, s.metaLen, s.useSgl, s.singleSegment, s.nrEntries)
            + b[SUBMIT_FIXED_LEN..] == Canonical(b)
  {
    var c := Canonical(b);
    SplitFixed(c);
    PutGet32(b[88..92]);
    PutGet32(b[92..96]);
    PutGet16(b[98..100]);
    assert c[..24] == b[..24] && c[24..88] == b[24..88] && c[88..92] == b[88..92] && c[92..96] == b[92..96];
    assert c[98..100] == b[98..100] && c[100..] == b[100..];
  }

  lemma CompleteImageOf(h: Header, b: seq<byte>, offset: nat)
    requires |b| == COMPLETE_LEN && b[5] == COMPLETE
    requires HeaderImage(h) == b[..HEADER_LEN]
    ensures var r := ParseComplete(h, b, offset);
            && r.Ok?
            && CompleteImage(h, r.value.result, r.value.sqHead, r.value.sqId, r.value.status, r.value.retries)
               == Canonical(b)
  {
    var c := Canonical(b);
    SplitComplete(c);
    PutGet64(b[24..32]);
    PutGet16(b[32..34]);
    PutGet16(b[34..36]);
    PutGet16(b[36..38]);
    assert c[..24] == b[..24] && c[24..32] == b[24..32] && c[32..34] == b[32..34];
    assert c[34..36] == b[34..36] && c[36..38] == b[36..38];
  }

  /** Which header and which fields a successful parse went through. */
  lemma ParsedFrom(b: seq<byte>, offset: nat)
    requires ParseRecordBytes(b, offset).Ok?
    ensures |b| >= COMPLETE_LEN
    ensures var raw := ParseRecordBytes(b, offset).value;
            var h := HeaderOf(b[..HEADER_LEN]);
            && raw.header == h && h.recordType == b[5] && HeaderWf(h, b[5], |b|)
            && (b[5] == SUBMIT ==> ParseSubmit(h, b, offset) == Ok(raw.record.submit))
            && (b[5] != SUBMIT ==> b[5] == COMPLETE && ParseComplete(h, b, offset) == Ok(raw.record.complete))
            && raw.record.Submit? == (b[5] == SUBMIT)
  {
  }

  /** Conversely, whatever parses is the image of the record it parses to, up to `Canonical`. */
  lemma SerializeParse(b: seq<byte>, offset: nat)
    requires ParseRecordBytes(b, offset).Ok?
    ensures var raw := ParseRecordBytes(b, offset).value;
            RecordWf(raw.record) && raw.header == raw.record.Hdr() && Serialize(raw.record) == Canonical(b)
  {
    hide ParseRecordBytes, ParseHeader, HeaderOf, HeaderImage, SubmitFixedImage, CompleteImage, Canonical, TailOf;
    ParsedFrom(b, offset);
    var raw := ParseRecordBytes(b, offset).value;
    ImageOfHeader(b[..HEADER_LEN]);
    if b[5] == SUBMIT {
      TailImageOf(b[SUBMIT_FIXED_LEN..], b[96] != 0);
      assert RecordWf(raw.record);
      SubmitImageOf(raw.header, b, offset);
    } else {
      CompleteImageOf(raw.header, b, offset);
    }
  }

  /** Canonical bytes parse exactly when the original bytes do. */
  lemma ParseIgnoresCanonical(b: seq<byte>, offset: nat)
    requires |b| >= HEADER_LEN
    ensures ParseRecordBytes(b, offset).Ok? <==> ParseRecordBytes(Canonical(b), offset).Ok?
  {
    var c := Canonical(b);
    assert c[..HEADER_LEN] == b[..HEADER_LEN];
    assert b[5] == HeaderOf(b[..HEADER_LEN]).recordType;
    if b[5] == SUBMIT && |b| >= SUBMIT_FIXED_LEN {
      assert c[98..100] == b[98..100];
    }
  }

  /** The accepted byte strings are exactly those whose canonical form is the image of a well-formed record. */
  lemma AcceptedExactly(b: seq<byte>, offset: nat)
    ensures ParseRecordBytes(b, offset).Ok?
            <==> |b| >= HEADER_LEN && exists r: TraceRecord :: RecordWf(r) && Serialize(r) == Canonical(b)
  {
    if |b| >= HEADER_LEN {
      ParseIgnoresCanonical(b, offset);
      if ParseRecordBytes(b, offset).Ok? {
        SerializeParse(b, offset);
      } else {
        forall r: TraceRecord | RecordWf(r)
          ensures Serialize(r) != Canonical(b)
        {
          ParseSerialize(r, offset);
        }
      }
    }
  }

  // ---------------------------------------------------------------- the format, byte by byte

  /** The header that stands at the front of `b`. */
  ghost predicate HeaderReads(h: Header, b: seq<byte>)
    requires |b| >= 24
  {
    h == Header(U32At(b, 0), b[4], b[5], U16At(b, 6), U64At(b, 8), U32At(b, 16), b[20], b[21], U16At(b, 22))
  }

  /** The `n` descriptor entries that stand in `b` from position `from` on. */
  ghost predicate TailReads(t: SubmitTail, b: seq<byte>, from: nat, useSgl: bool, n: nat) {
    if useSgl then
      && t.Sgl? && |t.descs| == n && |b| == from + 16 * n
      && forall k, p :: 0 <= k < n && p == from + 16 * k ==>
           t.descs[k] == SglDesc(U64At(b, p), U32At(b, p + 8), b[p + 12..p + 15], b[p + 15])
    else
      && t.Prp? && |t.prps| == n && |b| == from + 8 * n
      && forall k, p :: 0 <= k < n && p == from + 8 * k ==> t.prps[k] == U64At(b, p)
  }

  ghost predicate SubmitReads(s: SubmitRecord, b: seq<byte>)
    requires |b| >= 100
  {
    && HeaderReads(s.header, b)
    && s.sqe == b[24..88] && s.dataLen == U32At(b, 88) && s.metaLen == U32At(b, 92)
    && s.useSgl == (b[96] != 0) && s.singleSegment == (b[97] != 0) && s.nrEntries == U16At(b, 98)
    && TailReads(s.tail, b, 100, b[96] != 0, U16At(b, 98))
  }

  ghost predicate CompleteReads(c: CompleteRecord, b: seq<byte>)
    requires |b| >= 40
  {
    && HeaderReads(c.header, b)
    && c.result == U64At(b, 24) && c.sqHead == U16At(b, 32) && c.sqId == U16At(b, 34) && c.status == U16At(b, 36)
    && c.retries == b[38]
  }

  lemma HeaderBytes(b: seq<byte>)
    requires |b| >= 24
    ensures HeaderReads(HeaderOf(b[..24]), b)
  {
    hide Get16, Get32, Get64, U16At, U32At, U64At;
    var h := b[..24];
    assert h[0..4] == b[0..4] && h[6..8] == b[6..8] && h[8..16] == b[8..16];
    assert h[16..20] == b[16..20] && h[22..24] == b[22..24];
    ReadsLittleEndian(b, 0);
    ReadsLittleEndian(b, 6);
    ReadsLittleEndian(b, 8);
    ReadsLittleEndian(b, 16);
    ReadsLittleEndian(b, 22);
  }

  lemma {:induction false} PrpBytes(b: seq<byte>, from: nat, n: nat)
    requires |b| == from + 8 * n
    ensures TailReads(Prp(PrpEntries(b[from..])), b, from, false, n)
    decreases n
  {
    hide Get64, U64At;
    if n > 0 {
      var es, rest := PrpEntries(b[from..]), PrpEntries(b[from + 8..]);
      assert b[from..][8..] == b[from + 8..] && b[from..][..8] == b[from..from + 8];
      PrpBytes(b, from + 8, n - 1);
      ReadsLittleEndian(b, from);
      assert es == [U64At(b, from)] + rest;
      forall k, p | 0 <= k < n && p == from + 8 * k
        ensures es[k] == U64At(b, p)
      {
        if k > 0 {
          assert p == from + 8 + 8 * (k - 1);
          assert es[k] == rest[k - 1];
        }
      }
    }
  }

  lemma DescBytes(b: seq<byte>, p: nat)
    requires p + 16 <= |b|
    ensures DescOf(b[p..p + 16]) == SglDesc(U64At(b, p), U32At(b, p + 8), b[p + 12..p + 15], b[p + 15])
  {
    hide Get32, Get64, U32At, U64At;
    var d := b[p..p + 16];
    SliceOfSlice(b, p, p + 16, 0, 8);
    SliceOfSlice(b, p, p + 16, 8, 12);
    SliceOfSlice(b, p, p + 16, 12, 15);
    ReadsLittleEndian(b, p);
    ReadsLittleEndian(b, p + 8);
  }

  lemma {:induction false} SglBytes(b: seq<byte>, from: nat, n: nat)
    requires |b| == from + 16 * n
    ensures TailReads(Sgl(SglEntries(b[from..])), b, from, true, n)
    decreases n
  {
    hide DescOf, U32At, U64At;
    if n > 0 {
      var ds, rest := SglEntries(b[from..]), SglEntries(b[from + 16..]);
      assert b[from..][16..] == b[from + 16..] && b[from..][..16] == b[from..from + 16];
      SglBytes(b, from + 16, n - 1);
      DescBytes(b, from);
      assert ds == [DescOf(b[from..from + 16])] + rest;
      forall k, p | 0 <= k < n && p == from + 16 * k
        ensures ds[k] == SglDesc(U64At(b, p), U32At(b, p + 8), b[p + 12..p + 15], b[p + 15])
      {
        if k > 0 {
          assert p == from + 16 + 16 * (k - 1);
          assert ds[k] == rest[k - 1];
        }
      }
    }
  }

  lemma TailBytes(b: seq<byte>, from: nat, useSgl: bool, n: nat)
    requires |b| == from + n * EntryLen(useSgl)
    ensures |b[from..]| % EntryLen(useSgl) == 0 && TailReads(TailOf(b[from..], useSgl), b, from, useSgl, n)
  {
    hide PrpEntries, SglEntries, TailReads;
    if useSgl {
      SglBytes(b, from, n);
    } else {
      PrpBytes(b, from, n);
    }
  }

  /**
   The parser on raw bytes: which byte strings are accepted, what every field of the record is, and which error
   each other byte string gives. The first check that fails decides.
   */
  lemma ParsedExactly(b: seq<byte>, offset: nat)
    ensures var r := ParseRecordBytes(b, offset);
            if |b| < 24 then r == Err(TruncatedHeader(offset, |b|))
            else if U32At(b, 0) != 0x4e56_4d45 then r == Err(InvalidMagic(offset, U32At(b, 0)))
            else if b[4] != 1 then r == Err(UnsupportedVersion(offset, b[4]))
            else if U16At(b, 6) != |b| then r == Err(InvalidLength(offset, b[5], U16At(b, 6), LengthMismatch))
            else if b[5] == 0 then
              if |b| < 100 then r == Err(InvalidLength(offset, 0, |b|, SubmitTooShort))
              else if |b| != 100 + U16At(b, 98) * (if b[96] != 0 then 16 else 8) then
                r == Err(InvalidLength(offset, 0, |b|, TailMismatch))
              else
                && r.Ok? && r.value.record.Submit? && SubmitReads(r.value.record.submit, b)
                && r.value.header == r.value.record.submit.header && r.value.bytes == b && r.value.offset == offset
            else if b[5] == 1 then
              if |b| != 40 then r == Err(InvalidLength(offset, 1, |b|, CompleteSize))
              else
                && r.Ok? && r.value.record.Complete? && CompleteReads(r.value.record.complete, b)
                && r.value.header == r.value.record.complete.header && r.value.bytes == b && r.value.offset == offset
            else r == Err(UnknownType(offset, b[5]))
  {
    hide HeaderOf, U16At, U32At, U64At, Get16, Get32, Get64, TailOf, TailReads;
    if |b| >= 24 {
      HeaderBytes(b);
      if |b| >= 100 {
        ReadsLittleEndian(b, 88);
        ReadsLittleEndian(b, 92);
        ReadsLittleEndian(b, 98);
        if |b| == 100 + U16At(b, 98) * EntryLen(b[96] != 0) {
          TailBytes(b, 100, b[96] != 0, U16At(b, 98));
        }
      }
      if |b| == 40 {
        ReadsLittleEndian(b, 24);
        ReadsLittleEndian(b, 32);
        ReadsLittleEndian(b, 34);
        ReadsLittleEndian(b, 36);
      }
    }
  }
}
