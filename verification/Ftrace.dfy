/**
 The ring-buffer page decoder of `tracing/nvme-trace/src/ftrace.rs`: a cursor over
 one page, a running wrapping timestamp, and records appended to an output buffer.
 */
module Ftrace {
  import opened Bytes
  import opened Records

  const PAGE_SIZE: nat := 4096
  const PAGE_DATA_OFFSET: nat := 16

  const TYPE_TIME_EXTEND: nat := 29
  const TYPE_TIME_STAMP: nat := 30
  const TYPE_PADDING: nat := 31

  const DELTA_SIZE: nat := 0x800_0000  // 27 bits of time delta

  datatype SubmitFormat = SubmitFormat(
    ctrlId: nat, qid: nat, cid: nat, dataLen: nat, metaLen: nat,
    useSgl: nat, singleSegment: nat, sqe: nat, descriptors: nat)

  datatype CompleteFormat = CompleteFormat(
    ctrlId: nat, qid: nat, cid: nat, result: nat, sqHead: nat, sqId: nat, status: nat, retries: nat)

  datatype Config = Config(submitId: u16, completeId: u16, submitFmt: SubmitFormat, completeFmt: CompleteFormat)

  function Max(a: nat, b: nat): nat {
    if a < b then b else a
  }

  /** Every submit field ends within the larger of the two ends the encoder checks. */
  predicate SubmitFormatOk(f: SubmitFormat) {
    var end := Max(f.descriptors + 4, f.sqe + SQE_LEN);
    && f.ctrlId + 4 <= end && f.qid + 4 <= end && f.cid + 2 <= end && f.dataLen + 4 <= end
    && f.metaLen + 4 <= end && f.useSgl < end && f.singleSegment < end
  }

  /** Every completion field ends by the one end the encoder checks. */
  predicate CompleteFormatOk(f: CompleteFormat) {
    var end := f.retries + 1;
    && f.ctrlId + 4 <= end && f.qid + 4 <= end && f.cid + 2 <= end && f.result + 8 <= end
    && f.sqHead + 2 <= end && f.sqId + 2 <= end && f.status + 2 <= end
  }

  predicate ConfigOk(c: Config) {
    SubmitFormatOk(c.submitFmt) && CompleteFormatOk(c.completeFmt)
  }

  /** A growable byte buffer that callees extend in place. */
  class Vec {
    var bytes: seq<byte>

    constructor ()
      ensures bytes == []
    {
      bytes := [];
    }

    method Clear()
      modifies this
      ensures bytes == []
    {
      bytes := [];
    }

    method Extend(more: seq<byte>)
      modifies this
      ensures bytes == old(bytes) + more
    {
      bytes := bytes + more;
    }
  }

  // ---------------------------------------------------------------- encoders

  function At16(data: seq<byte>, i: nat): u16
    requires i + 2 <= |data|
  {
    Get16(data[i..i + 2])
  }

  function At32(data: seq<byte>, i: nat): u32
    requires i + 4 <= |data|
  {
    Get32(data[i..i + 4])
  }

  function At64(data: seq<byte>, i: nat): u64
    requires i + 8 <= |data|
  {
    Get64(data[i..i + 8])
  }

  /** Truncation of a 32-bit field to its low byte. */
  function LowByte(n: u32): byte {
    n % 256
  }

  predicate SubmitFits(data: seq<byte>, f: SubmitFormat) {
    f.descriptors + 4 <= |data| && f.sqe + SQE_LEN <= |data|
  }

  predicate CompleteFits(data: seq<byte>, f: CompleteFormat) {
    f.retries + 1 <= |data|
  }

  /** The blob that the `__data_loc` word points at, or nothing if it does not lie inside the event. */
  function Descriptors(data: seq<byte>, f: SubmitFormat): (d: seq<byte>)
    requires SubmitFits(data, f)
    ensures |d| < U16_SIZE && |d| <= |data|
  {
    var loc := At32(data, f.descriptors);
    var off := loc % U16_SIZE;
    var len := loc / U16_SIZE;
    if len > 0 && off + len <= |data| then data[off..off + len] else []
  }

  function SubmitHeader(data: seq<byte>, ts: u64, f: SubmitFormat): Header
    requires SubmitFormatOk(f) && SubmitFits(data, f)
  {
    Header(MAGIC, VERSION, SUBMIT, (SUBMIT_FIXED_LEN + |Descriptors(data, f)|) % U16_SIZE, ts, 0,
           LowByte(At32(data, f.ctrlId)), LowByte(At32(data, f.qid)), At16(data, f.cid))
  }

  function UsesSgl(data: seq<byte>, f: SubmitFormat): bool
    requires SubmitFormatOk(f) && SubmitFits(data, f)
  {
    data[f.useSgl] != 0
  }

  function EncodedSubmit(data: seq<byte>, ts: u64, f: SubmitFormat): (r: Option<seq<byte>>)
    requires SubmitFormatOk(f)
  {
    if !SubmitFits(data, f) then None
    else
      var d := Descriptors(data, f);
      Some(SubmitFixedImage(SubmitHeader(data, ts, f), data[f.sqe..f.sqe + SQE_LEN], At32(data, f.dataLen),
                            At32(data, f.metaLen), UsesSgl(data, f), data[f.singleSegment] != 0,
                            Entries(d, UsesSgl(data, f)))
           + d)
  }

  /** The entry count of a descriptor blob, rounded down. */
  function Entries(d: seq<byte>, useSgl: bool): u16
    requires |d| < U16_SIZE
  {
    if useSgl then |d| / SGL_DESC_LEN else |d| / PRP_ENTRY_LEN
  }

  function CompleteHeader(data: seq<byte>, ts: u64, f: CompleteFormat): Header
    requires CompleteFormatOk(f) && CompleteFits(data, f)
  {
    Header(MAGIC, VERSION, COMPLETE, COMPLETE_LEN, ts, 0,
           LowByte(At32(data, f.ctrlId)), LowByte(At32(data, f.qid)), At16(data, f.cid))
  }

  function EncodedComplete(data: seq<byte>, ts: u64, f: CompleteFormat): (r: Option<seq<byte>>)
    requires CompleteFormatOk(f)
  {
    if !CompleteFits(data, f) then None
    else
      Some(CompleteImage(CompleteHeader(data, ts, f), At64(data, f.result), At16(data, f.sqHead),
                         At16(data, f.sqId), At16(data, f.status), data[f.retries]))
  }

  method EncodeSubmit(data: seq<byte>, timestampNs: u64, f: SubmitFormat) returns (r: Option<seq<byte>>)
    requires SubmitFormatOk(f)
    ensures r == EncodedSubmit(data, timestampNs, f)
  {
    hide At32, At16, LowByte, Put16, Put32, Put64, Get16, Get32, Get64, Flag;
    if f.descriptors + 4 > |data| {
      return None;
    }
    if f.sqe + 64 > |data| {
      return None;
    }
    var ctrlId := LowByte(At32(data, f.ctrlId));
    var qid := LowByte(At32(data, f.qid));
    var cid := At16(data, f.cid);
    var dataLen := At32(data, f.dataLen);
    var metaLen := At32(data, f.metaLen);
    var useSgl := data[f.useSgl] != 0;
    var singleSegment := data[f.singleSegment] != 0;
    var sqe := data[f.sqe..f.sqe + 64];

    var dataloc := At32(data, f.descriptors);
    var descOff := dataloc % U16_SIZE;
    var descLen := dataloc / U16_SIZE;
    var descriptors := if descLen > 0 && descOff + descLen <= |data| then data[descOff..descOff + descLen] else [];
    var nrEntries: u16 := if useSgl then |descriptors| / 16 else |descriptors| / 8;
    var totalLen := SUBMIT_FIXED_LEN + |descriptors|;

    var rec: seq<byte> := Put32(MAGIC);
    rec := rec + [VERSION, SUBMIT];
    rec := rec + Put16(totalLen % U16_SIZE);
    rec := rec + Put64(timestampNs);
    rec := rec + Put32(0);
    rec := rec + [ctrlId, qid];
    rec := rec + Put16(cid);

    rec := rec + sqe;
    rec := rec + Put32(dataLen);
    rec := rec + Put32(metaLen);
    rec := rec + [Flag(useSgl), Flag(singleSegment)];
    rec := rec + Put16(nrEntries);

    rec := rec + descriptors;
    r := Some(rec);
  }

  method EncodeComplete(data: seq<byte>, timestampNs: u64, f: CompleteFormat) returns (r: Option<seq<byte>>)
    requires CompleteFormatOk(f)
    ensures r == EncodedComplete(data, timestampNs, f)
  {
    hide At32, At16, At64, LowByte, Put16, Put32, Put64, Get16, Get32, Get64;
    if f.retries + 1 > |data| {
      return None;
    }
    var rec: seq<byte> := Put32(MAGIC);
    rec := rec + [VERSION, COMPLETE];
    rec := rec + Put16(COMPLETE_LEN);
    rec := rec + Put64(timestampNs);
    rec := rec + Put32(0);
    rec := rec + [LowByte(At32(data, f.ctrlId)), LowByte(At32(data, f.qid))];
    rec := rec + Put16(At16(data, f.cid));

    rec := rec + Put64(At64(data, f.result));
    rec := rec + Put16(At16(data, f.sqHead));
    rec := rec + Put16(At16(data, f.sqId));
    rec := rec + Put16(At16(data, f.status));
    rec := rec + [data[f.retries], 0];
    r := Some(rec);
  }

  // ---------------------------------------------------------------- what the encoders mean

  /** The submit event as a record, when its descriptor blob is a whole number of entries. */
  function SubmitEvent(data: seq<byte>, ts: u64, f: SubmitFormat): (r: TraceRecord)
    requires SubmitFormatOk(f) && SubmitFits(data, f)
    requires |Descriptors(data, f)| % EntryLen(UsesSgl(data, f)) == 0
  {
    var d := Descriptors(data, f);
    var sgl := UsesSgl(data, f);
    Submit(SubmitRecord(SubmitHeader(data, ts, f), data[f.sqe..f.sqe + SQE_LEN], At32(data, f.dataLen),
                        At32(data, f.metaLen), sgl, data[f.singleSegment] != 0, Entries(d, sgl),
                        TailOf(d, sgl)))
  }

  function CompleteEvent(data: seq<byte>, ts: u64, f: CompleteFormat): (r: TraceRecord)
    requires CompleteFormatOk(f) && CompleteFits(data, f)
  {
    Complete(CompleteRecord(CompleteHeader(data, ts, f), At64(data, f.result), At16(data, f.sqHead),
                            At16(data, f.sqId), At16(data, f.status), data[f.retries]))
  }

  /** For every submit event the encoder accepts: its output parses iff the descriptor blob is a whole number of
      entries and the total fits the 16-bit length field; then the fields come back, and otherwise the
      reader's error names the tail, or the wrapped length. */
  lemma EncodedSubmitParses(data: seq<byte>, ts: u64, f: SubmitFormat, offset: nat)
    requires SubmitFormatOk(f) && SubmitFits(data, f)
    ensures var b := EncodedSubmit(data, ts, f).value;
            var d := Descriptors(data, f);
            var p := ParseRecordBytes(b, offset);
            && |b| == SUBMIT_FIXED_LEN + |d|
            && (p.Ok? <==> |b| < U16_SIZE && |d| % EntryLen(UsesSgl(data, f)) == 0)
            && (p.Ok? ==> p.value == RawRecord(SubmitHeader(data, ts, f), SubmitEvent(data, ts, f), b, offset))
            && (|b| < U16_SIZE && p.Err? ==> p.error == InvalidLength(offset, SUBMIT, |b|, TailMismatch))
            && (|b| >= U16_SIZE ==> p == Err(InvalidLength(offset, SUBMIT, |b| - U16_SIZE, LengthMismatch)))
  {
    hide HeaderOf, SubmitFixedImage, Descriptors, TailOf, At32, At16, LowByte, UsesSgl, Get32, Get16;
    var d := Descriptors(data, f);
    SubmitFixedFields(SubmitHeader(data, ts, f), data[f.sqe..f.sqe + SQE_LEN], At32(data, f.dataLen),
                      At32(data, f.metaLen), UsesSgl(data, f), data[f.singleSegment] != 0,
                      Entries(d, UsesSgl(data, f)), d);
  }

  lemma EncodedCompleteParses(data: seq<byte>, ts: u64, f: CompleteFormat, offset: nat)
    requires CompleteFormatOk(f) && CompleteFits(data, f)
    ensures var b := EncodedComplete(data, ts, f).value;
            ParseRecordBytes(b, offset)
            == Ok(RawRecord(CompleteHeader(data, ts, f), CompleteEvent(data, ts, f), b, offset))
  {
    hide HeaderOf, At32, At16, At64, LowByte;
    ParseSerialize(CompleteEvent(data, ts, f), offset);
  }

  // ---------------------------------------------------------------- the encoders, field by field

  /** The descriptor blob of an event: the word at `descriptors` holds its offset in the low half and its length
      in the high half; nothing if it does not lie inside the event. */
  ghost predicate BlobNamed(data: seq<byte>, f: SubmitFormat, blob: seq<byte>)
    requires f.descriptors + 4 <= |data|
  {
    var off, len := U16At(data, f.descriptors), U16At(data, f.descriptors + 2);
    blob == if len > 0 && off + len <= |data| then data[off..off + len] else []
  }

  /** Every field of a submit record, read off the event at the configured offsets. */
  ghost predicate SubmitFrom(s: SubmitRecord, data: seq<byte>, ts: u64, f: SubmitFormat, blob: seq<byte>)
    requires SubmitFormatOk(f) && f.descriptors + 4 <= |data| && f.sqe + 64 <= |data| && 100 + |blob| < 0x1_0000
  {
    && s.header == Header(0x4e56_4d45, 1, 0, 100 + |blob|, ts, 0, data[f.ctrlId], data[f.qid], U16At(data, f.cid))
    && s.sqe == data[f.sqe..f.sqe + 64] && s.dataLen == U32At(data, f.dataLen) && s.metaLen == U32At(data, f.metaLen)
    && s.useSgl == (data[f.useSgl] != 0) && s.singleSegment == (data[f.singleSegment] != 0)
    && TailReads(s.tail, blob, 0, data[f.useSgl] != 0, s.nrEntries)
  }

  ghost predicate CompleteFrom(s: CompleteRecord, data: seq<byte>, ts: u64, f: CompleteFormat)
    requires CompleteFormatOk(f) && f.retries + 1 <= |data|
  {
    && s.header == Header(0x4e56_4d45, 1, 1, 40, ts, 0, data[f.ctrlId], data[f.qid], U16At(data, f.cid))
    && s.result == U64At(data, f.result) && s.sqHead == U16At(data, f.sqHead) && s.sqId == U16At(data, f.sqId)
    && s.status == U16At(data, f.status) && s.retries == data[f.retries]
  }

  lemma FieldReads(data: seq<byte>, i: nat)
    ensures i + 2 <= |data| ==> At16(data, i) == U16At(data, i)
    ensures i + 4 <= |data| ==>
              && At32(data, i) == U32At(data, i) && LowByte(At32(data, i)) == data[i]
              && At32(data, i) % 0x1_0000 == U16At(data, i) && At32(data, i) / 0x1_0000 == U16At(data, i + 2)
    ensures i + 8 <= |data| ==> At64(data, i) == U64At(data, i)
  {
    hide Get16, Get32, Get64, U32At, U64At, U16At;
    ReadsLittleEndian(data, i);
    if i + 4 <= |data| {
      WordHalves(data, i);
    }
  }

  lemma WordHalves(data: seq<byte>, i: nat)
    requires i + 4 <= |data|
    ensures U32At(data, i) % 0x100 == data[i]
    ensures U32At(data, i) % 0x1_0000 == U16At(data, i) && U32At(data, i) / 0x1_0000 == U16At(data, i + 2)
  {
  }

  lemma BlobIs(data: seq<byte>, f: SubmitFormat, blob: seq<byte>)
    requires SubmitFits(data, f) && BlobNamed(data, f, blob)
    ensures Descriptors(data, f) == blob && |blob| < 0x1_0000
  {
    hide At32, U16At;
    FieldReads(data, f.descriptors);
  }

  lemma SubmitEventMeans(data: seq<byte>, ts: u64, f: SubmitFormat, blob: seq<byte>)
    requires SubmitFormatOk(f) && SubmitFits(data, f) && BlobNamed(data, f, blob) && 100 + |blob| < 0x1_0000
    requires |blob| % (if data[f.useSgl] != 0 then 16 else 8) == 0
    ensures Descriptors(data, f) == blob && |blob| % EntryLen(UsesSgl(data, f)) == 0
    ensures SubmitEvent(data, ts, f).Submit? && SubmitFrom(SubmitEvent(data, ts, f).submit, data, ts, f, blob)
  {
    hide At32, At16, LowByte, U16At, U32At, TailOf, TailReads, Descriptors, BlobNamed;
    BlobIs(data, f, blob);
    FieldReads(data, f.ctrlId);
    FieldReads(data, f.qid);
    FieldReads(data, f.cid);
    FieldReads(data, f.dataLen);
    FieldReads(data, f.metaLen);
    var sgl := UsesSgl(data, f);
    assert blob[0..] == blob;
    TailBytes(blob, 0, sgl, Entries(blob, sgl));
  }

  lemma CompleteEventMeans(data: seq<byte>, ts: u64, f: CompleteFormat)
    requires CompleteFormatOk(f) && CompleteFits(data, f)
    ensures CompleteEvent(data, ts, f).Complete? && CompleteFrom(CompleteEvent(data, ts, f).complete, data, ts, f)
  {
    hide At32, At16, At64, LowByte, U16At, U32At, U64At;
    FieldReads(data, f.ctrlId);
    FieldReads(data, f.qid);
    FieldReads(data, f.cid);
    FieldReads(data, f.result);
    FieldReads(data, f.sqHead);
    FieldReads(data, f.sqId);
    FieldReads(data, f.status);
  }

  /**
   A submit event and the record that is read back from its encoding. The encoder takes the event if the data-loc
   word and the 64 command bytes lie inside it; the reader takes the result if and only if the blob is a whole
   number of entries and the total fits 16 bits; and then every field is the one at its configured offset and the
   entries are those of the blob.
   */
  lemma SubmitMeans(data: seq<byte>, ts: u64, f: SubmitFormat, offset: nat)
    requires SubmitFormatOk(f)
    ensures EncodedSubmit(data, ts, f).Some? <==> f.descriptors + 4 <= |data| && f.sqe + 64 <= |data|
    ensures EncodedSubmit(data, ts, f).Some? ==>
              forall blob :: BlobNamed(data, f, blob) ==>
                var b := EncodedSubmit(data, ts, f).value;
                var p := ParseRecordBytes(b, offset);
                && (p.Ok? <==> |blob| % (if data[f.useSgl] != 0 then 16 else 8) == 0 && 100 + |blob| < 0x1_0000)
                && (p.Ok? ==> p.value.record.Submit? && SubmitFrom(p.value.record.submit, data, ts, f, blob))
  {
    hide At32, At16, LowByte, U16At, U32At, Descriptors, BlobNamed, SubmitFrom, SubmitFixedImage, SubmitHeader, TailOf,
      ParseRecordBytes, SubmitEvent;
    if SubmitFits(data, f) {
      EncodedSubmitParses(data, ts, f, offset);
      forall blob | BlobNamed(data, f, blob)
        ensures var p := ParseRecordBytes(EncodedSubmit(data, ts, f).value, offset);
                && (p.Ok? <==> |blob| % (if data[f.useSgl] != 0 then 16 else 8) == 0 && 100 + |blob| < 0x1_0000)
                && (p.Ok? ==> p.value.record.Submit? && SubmitFrom(p.value.record.submit, data, ts, f, blob))
      {
        BlobIs(data, f, blob);
        if ParseRecordBytes(EncodedSubmit(data, ts, f).value, offset).Ok? {
          SubmitEventMeans(data, ts, f, blob);
        }
      }
    }
  }

  /** The encoding of a submit event, byte by byte, whether or not it can be read back. */
  lemma SubmitBytes(data: seq<byte>, ts: u64, f: SubmitFormat, blob: seq<byte>)
    requires SubmitFormatOk(f) && SubmitFits(data, f) && BlobNamed(data, f, blob)
    ensures var b, sgl := EncodedSubmit(data, ts, f).value, data[f.useSgl] != 0;
            && |b| == 100 + |blob|
            && U32At(b, 0) == 0x4e56_4d45 && b[4] == 1 && b[5] == 0 && U16At(b, 6) == (100 + |blob|) % 0x1_0000
            && U64At(b, 8) == ts && U32At(b, 16) == 0
            && b[20] == data[f.ctrlId] && b[21] == data[f.qid] && U16At(b, 22) == U16At(data, f.cid)
            && b[24..88] == data[f.sqe..f.sqe + 64]
            && U32At(b, 88) == U32At(data, f.dataLen) && U32At(b, 92) == U32At(data, f.metaLen)
            && b[96] == (if sgl then 1 else 0) && b[97] == (if data[f.singleSegment] != 0 then 1 else 0)
            && U16At(b, 98) == |blob| / (if sgl then 16 else 8)
            && b[100..] == blob
  {
    hide At32, At16, LowByte, U16At, U32At, U64At, Descriptors, BlobNamed, Get16, Get32, Get64, HeaderOf,
      SubmitFixedImage;
    BlobIs(data, f, blob);
    FieldReads(data, f.ctrlId);
    FieldReads(data, f.qid);
    FieldReads(data, f.cid);
    FieldReads(data, f.dataLen);
    FieldReads(data, f.metaLen);
    var h, sgl := SubmitHeader(data, ts, f), UsesSgl(data, f);
    var b := EncodedSubmit(data, ts, f).value;
    SubmitFixedFields(h, data[f.sqe..f.sqe + SQE_LEN], At32(data, f.dataLen), At32(data, f.metaLen), sgl,
                      data[f.singleSegment] != 0, Entries(blob, sgl), blob);
    FlagBytes(h, data[f.sqe..f.sqe + SQE_LEN], At32(data, f.dataLen), At32(data, f.metaLen), sgl,
              data[f.singleSegment] != 0, Entries(blob, sgl), blob);
    HeaderBytes(b);
    ReadsLittleEndian(b, 88);
    ReadsLittleEndian(b, 92);
    ReadsLittleEndian(b, 98);
  }

  lemma FlagBytes(h: Header, sqe: seq<byte>, dataLen: u32, metaLen: u32, useSgl: bool, singleSegment: bool,
                  nrEntries: u16, tail: seq<byte>)
    requires |sqe| == SQE_LEN
    ensures var b := SubmitFixedImage(h, sqe, dataLen, metaLen, useSgl, singleSegment, nrEntries) + tail;
            b[96] == (if useSgl then 1 else 0) && b[97] == if singleSegment then 1 else 0
  {
    hide HeaderImage, Put16, Put32;
  }

  lemma CompleteBytes(data: seq<byte>, ts: u64, f: CompleteFormat)
    requires CompleteFormatOk(f) && CompleteFits(data, f)
    ensures var b := EncodedComplete(data, ts, f).value;
            && |b| == 40
            && U32At(b, 0) == 0x4e56_4d45 && b[4] == 1 && b[5] == 1 && U16At(b, 6) == 40
            && U64At(b, 8) == ts && U32At(b, 16) == 0
            && b[20] == data[f.ctrlId] && b[21] == data[f.qid] && U16At(b, 22) == U16At(data, f.cid)
            && U64At(b, 24) == U64At(data, f.result) && U16At(b, 32) == U16At(data, f.sqHead)
            && U16At(b, 34) == U16At(data, f.sqId) && U16At(b, 36) == U16At(data, f.status)
            && b[38] == data[f.retries] && b[39] == 0
  {
    hide At32, At16, At64, LowByte, U16At, U32At, U64At, Get16, Get32, Get64, HeaderOf, HeaderImage, Put16, Put64;
    FieldReads(data, f.ctrlId);
    FieldReads(data, f.qid);
    FieldReads(data, f.cid);
    FieldReads(data, f.result);
    FieldReads(data, f.sqHead);
    FieldReads(data, f.sqId);
    FieldReads(data, f.status);
    var b := EncodedComplete(data, ts, f).value;
    CompleteFields(CompleteHeader(data, ts, f), At64(data, f.result), At16(data, f.sqHead),
                   At16(data, f.sqId), At16(data, f.status), data[f.retries]);
    HeaderBytes(b);
    ReadsLittleEndian(b, 24);
    ReadsLittleEndian(b, 32);
    ReadsLittleEndian(b, 34);
    ReadsLittleEndian(b, 36);
  }

  /** The same for a completion, which is always read back. */
  lemma CompleteMeans(data: seq<byte>, ts: u64, f: CompleteFormat, offset: nat)
    requires CompleteFormatOk(f)
    ensures EncodedComplete(data, ts, f).Some? <==> f.retries + 1 <= |data|
    ensures EncodedComplete(data, ts, f).Some? ==>
              var p := ParseRecordBytes(EncodedComplete(data, ts, f).value, offset);
              p.Ok? && p.value.record.Complete? && CompleteFrom(p.value.record.complete, data, ts, f)
  {
    hide At32, At16, At64, LowByte, CompleteImage, ParseRecordBytes, CompleteFrom, CompleteEvent;
    if CompleteFits(data, f) {
      EncodedCompleteParses(data, ts, f, offset);
      CompleteEventMeans(data, ts, f);
    }
  }

  // ---------------------------------------------------------------- dispatch

  /** A data event with the running timestamp at that point of the page. */
  datatype Stamped = Stamped(ts: u64, payload: seq<byte>)

  function Encoded(e: Stamped, c: Config): (r: Option<seq<byte>>)
    requires ConfigOk(c)
  {
    if |e.payload| < 2 then None
    else if At16(e.payload, 0) == c.submitId then EncodedSubmit(e.payload, e.ts, c.submitFmt)
    else if At16(e.payload, 0) == c.completeId then EncodedComplete(e.payload, e.ts, c.completeFmt)
    else None
  }

  /** The encodings of the matching events, in order. */
  function Emitted(es: seq<Stamped>, c: Config): (r: seq<seq<byte>>)
    requires ConfigOk(c)
  {
    if es == [] then []
    else
      var rest := Emitted(es[1..], c);
      match Encoded(es[0], c)
      case None => rest
      case Some(b) => [b] + rest
  }

  function Flat(bs: seq<seq<byte>>): seq<byte> {
    if bs == [] then [] else bs[0] + Flat(bs[1..])
  }

  method DispatchEvent(eventData: seq<byte>, timestampNs: u64, c: Config, out: Vec) returns (n: nat)
    requires ConfigOk(c)
    modifies out
    ensures match Encoded(Stamped(timestampNs, eventData), c)
            case None => n == 0 && out.bytes == old(out.bytes)
            case Some(b) => n == 1 && out.bytes == old(out.bytes) + b
  {
    hide EncodedSubmit, EncodedComplete, SubmitFormatOk, CompleteFormatOk;
    if |eventData| < 2 {
      return 0;
    }
    var eventType := Get16(eventData[0..2]);
    if eventType == c.submitId {
      var rec := EncodeSubmit(eventData, timestampNs, c.submitFmt);
      if rec.Some? {
        out.Extend(rec.value);
        return 1;
      }
    } else if eventType == c.completeId {
      var rec := EncodeComplete(eventData, timestampNs, c.completeFmt);
      if rec.Some? {
        out.Extend(rec.value);
        return 1;
      }
    }
    n := 0;
  }

  // ---------------------------------------------------------------- page scan

  function WrappingAdd(a: u64, b: nat): u64 {
    (a + b) % U64_SIZE
  }

  /** One turn of the page loop: stop, consume `n` bytes of time, or consume `n` bytes of data event. */
  datatype Turn = Stop | Time(n: nat, ts: u64) | Event(n: nat, e: Stamped)

  function Header32(d: seq<byte>): u32
    requires |d| >= 4
  {
    Get32(d[..4])
  }

  function NextTurn(d: seq<byte>, ts: u64): (t: Turn)
    ensures !t.Stop? ==> 4 <= t.n <= |d|
  {
    if |d| < 4 then Stop
    else
      var kind := Header32(d) % 32;
      var delta := Header32(d) / 32;
      var body := d[4..];
      if kind == TYPE_PADDING then Stop
      else if kind == TYPE_TIME_STAMP then
        if |body| < 8 then Stop else Time(12, Get64(body[..8]))
      else if kind == TYPE_TIME_EXTEND then
        if |body| < 4 then Stop else Time(8, WrappingAdd(ts, Header32(body) * DELTA_SIZE + delta))
      else if kind == 0 then
        if |body| < 4 then Stop
        else
          var n := Header32(body);
          if n == 0 || 4 + n > |body| then Stop
          else Event(8 + n, Stamped(WrappingAdd(ts, delta), body[4..4 + n]))
      else
        var n := kind * 4;
        if n > |body| then Stop else Event(4 + n, Stamped(WrappingAdd(ts, delta), body[..n]))
  }

  /** The data events of the bytes `d`, from running timestamp `ts`. */
  function Scan(d: seq<byte>, ts: u64): (es: seq<Stamped>)
    decreases |d|
  {
    match NextTurn(d, ts)
    case Stop => []
    case Time(n, ts') => Scan(d[n..], ts')
    case Event(n, e) => [e] + Scan(d[n..], e.ts)
  }

  /** The data events of a whole page, nothing if the committed count is out of range. */
  function PageEvents(page: seq<byte>): (es: seq<Stamped>)
    requires |page| == PAGE_SIZE
  {
    var commit := Get32(page[8..12]);
    if commit == 0 || commit > PAGE_SIZE - PAGE_DATA_OFFSET then []
    else Scan(page[PAGE_DATA_OFFSET..PAGE_DATA_OFFSET + commit], Get64(page[0..8]))
  }

  lemma EmittedCons(e: Stamped, es: seq<Stamped>, c: Config)
    requires ConfigOk(c)
    ensures Emitted([e] + es, c) == (if Encoded(e, c).None? then [] else [Encoded(e, c).value]) + Emitted(es, c)
  {
    hide Encoded;
    assert ([e] + es)[1..] == es;
  }

  lemma FlatCons(b: seq<byte>, bs: seq<seq<byte>>)
    ensures Flat([b] + bs) == b + Flat(bs)
  {
    assert ([b] + bs)[1..] == bs;
  }

  /** The output once the bytes `d` have been scanned too. */
  function PendingBytes(out: seq<byte>, d: seq<byte>, ts: u64, c: Config): seq<byte>
    requires ConfigOk(c)
  {
    out + Flat(Emitted(Scan(d, ts), c))
  }

  function PendingCount(count: nat, d: seq<byte>, ts: u64, c: Config): nat
    requires ConfigOk(c)
  {
    count + |Emitted(Scan(d, ts), c)|
  }

  lemma PendingStop(out: seq<byte>, count: nat, d: seq<byte>, ts: u64, c: Config)
    requires ConfigOk(c) && NextTurn(d, ts).Stop?
    ensures PendingBytes(out, d, ts, c) == out && PendingCount(count, d, ts, c) == count
  {
    hide NextTurn, ConfigOk;
  }

  lemma PendingTime(out: seq<byte>, count: nat, d: seq<byte>, ts: u64, c: Config, d': seq<byte>, ts': u64)
    requires ConfigOk(c) && NextTurn(d, ts).Time?
    requires d' == d[NextTurn(d, ts).n..] && ts' == NextTurn(d, ts).ts
    ensures PendingBytes(out, d, ts, c) == PendingBytes(out, d', ts', c)
    ensures PendingCount(count, d, ts, c) == PendingCount(count, d', ts', c)
  {
    hide NextTurn, ConfigOk, Emitted;
  }

  lemma PendingEvent(out: seq<byte>, count: nat, d: seq<byte>, ts: u64, c: Config, e: Stamped, d': seq<byte>)
    requires ConfigOk(c) && NextTurn(d, ts).Event?
    requires d' == d[NextTurn(d, ts).n..] && e == NextTurn(d, ts).e
    ensures var more := Encoded(e, c);
            && PendingBytes(out, d, ts, c)
               == PendingBytes(if more.Some? then out + more.value else out, d', e.ts, c)
            && PendingCount(count, d, ts, c) == PendingCount(if more.Some? then count + 1 else count, d', e.ts, c)
  {
    hide NextTurn, ConfigOk, Encoded, Emitted, Flat;
    var es := Scan(d', e.ts);
    EmittedCons(e, es, c);
    if Encoded(e, c).Some? {
      var b := Encoded(e, c).value;
      assert Emitted(Scan(d, ts), c) == [b] + Emitted(es, c);
      FlatCons(b, Emitted(es, c));
    } else {
      assert Emitted(Scan(d, ts), c) == Emitted(es, c);
    }
  }

  lemma SliceOfRest<T>(s: seq<T>, pos: nat, i: nat, j: nat)
    requires i <= j && pos + j <= |s|
    ensures s[pos..][i..j] == s[pos + i..pos + j]
  {
  }

  /** What one turn leaves pending. */
  lemma PendingTurn(out: seq<byte>, count: nat, d: seq<byte>, ts: u64, c: Config)
    requires ConfigOk(c)
    ensures var t := NextTurn(d, ts);
            match t
            case Stop => PendingBytes(out, d, ts, c) == out && PendingCount(count, d, ts, c) == count
            case Time(n, ts') =>
              && PendingBytes(out, d, ts, c) == PendingBytes(out, d[n..], ts', c)
              && PendingCount(count, d, ts, c) == PendingCount(count, d[n..], ts', c)
            case Event(n, e) =>
              var more := Encoded(e, c);
              && PendingBytes(out, d, ts, c)
                 == PendingBytes(if more.Some? then out + more.value else out, d[n..], e.ts, c)
              && PendingCount(count, d, ts, c) == PendingCount(if more.Some? then count + 1 else count, d[n..], e.ts, c)
  {
    hide NextTurn, ConfigOk, Encoded, PendingBytes, PendingCount;
    var t := NextTurn(d, ts);
    match t {
      case Stop => PendingStop(out, count, d, ts, c);
      case Time(n, ts') => PendingTime(out, count, d, ts, c, d[n..], ts');
      case Event(n, e) => PendingEvent(out, count, d, ts, c, e, d[n..]);
    }
  }

  /** What the loop reads at its cursor are the bytes at the front of what is left. */
  lemma CursorReads(data: seq<byte>, pos: nat, ts: u64)
    requires pos + 4 <= |data|
    ensures var d := data[pos..];
            var body, t := d[4..], NextTurn(d, ts);
            && d[..4] == data[pos..pos + 4] && |body| == |data| - pos - 4
            && (|body| >= 4 ==> body[..4] == data[pos + 4..pos + 8])
            && (|body| >= 8 ==> body[..8] == data[pos + 4..pos + 12])
            && (!t.Stop? ==> d[t.n..] == data[pos + t.n..])
            && (t.Event? ==> t.e.payload == data[pos + t.n - |t.e.payload|..pos + t.n])
  {
    hide Get32, Get64, WrappingAdd;
    var d := data[pos..];
    assert d[4..] == data[pos + 4..];
    var t := NextTurn(d, ts);
    if t.Event? {
      var k := if Header32(d) % 32 == 0 then 4 else 0;
      SliceOfRest(data, pos + 4, k, k + |t.e.payload|);
    }
  }

  /** Appends the encodings of the page's matching events to `out`; returns how many. */
  method ParsePageEvents(page: array<byte>, c: Config, out: Vec) returns (count: nat)
    requires page.Length == PAGE_SIZE && ConfigOk(c)
    modifies out
    ensures out.bytes == old(out.bytes) + Flat(Emitted(PageEvents(page[..]), c))
    ensures count == |Emitted(PageEvents(page[..]), c)|
  {
    hide Encoded, Emitted, Flat, ConfigOk, PendingBytes, PendingCount, Scan, Get32, Get64, WrappingAdd,
      PageEvents;
    assert page[..][0..8] == page[0..8] && page[..][8..12] == page[8..12];
    var pageTs := Get64(page[0..8]);
    var commit := Get32(page[8..12]);
    count := 0;
    if commit == 0 || commit > PAGE_SIZE - PAGE_DATA_OFFSET {
      PageWithoutData(page[..], c);
      return;
    }
    var data := page[PAGE_DATA_OFFSET..PAGE_DATA_OFFSET + commit];
    assert data == page[..][PAGE_DATA_OFFSET..PAGE_DATA_OFFSET + commit];
    ghost var allBytes := PendingBytes(out.bytes, data, pageTs, c);
    ghost var allCount := PendingCount(0, data, pageTs, c);
    PendingWhole(out.bytes, page[..], c);
    var pos := 0;
    var ts := pageTs;
    assert data[0..] == data;

    while pos + 4 <= |data|
      invariant pos <= |data|
      invariant PendingBytes(out.bytes, data[pos..], ts, c) == allBytes
      invariant PendingCount(count, data[pos..], ts, c) == allCount
    {
      ghost var turn := NextTurn(data[pos..], ts);
      CursorReads(data, pos, ts);
      PendingTurn(out.bytes, count, data[pos..], ts, c);
      var hdr := Get32(data[pos..pos + 4]);
      var typeLen := hdr % 32;
      var timeDelta := hdr / 32;
      pos := pos + 4;

      if typeLen == TYPE_PADDING {
        return;
      } else if typeLen == TYPE_TIME_STAMP {
        if pos + 8 > |data| {
          return;
        }
        ts := Get64(data[pos..pos + 8]);
        pos := pos + 8;
      } else if typeLen == TYPE_TIME_EXTEND {
        if pos + 4 > |data| {
          return;
        }
        var upper := Get32(data[pos..pos + 4]);
        pos := pos + 4;
        ts := WrappingAdd(ts, upper * DELTA_SIZE + timeDelta);
      } else if typeLen == 0 {
        if pos + 4 > |data| {
          return;
        }
        var eventLen := Get32(data[pos..pos + 4]);
        pos := pos + 4;
        ts := WrappingAdd(ts, timeDelta);
        if eventLen == 0 || pos + eventLen > |data| {
          return;
        }
        var n := DispatchEvent(data[pos..pos + eventLen], ts, c, out);
        count := count + n;
        pos := pos + eventLen;
      } else {
        var eventLen := typeLen * 4;
        ts := WrappingAdd(ts, timeDelta);
        if pos + eventLen > |data| {
          return;
        }
        var n := DispatchEvent(data[pos..pos + eventLen], ts, c, out);
        count := count + n;
        pos := pos + eventLen;
      }
    }
    PendingStop(out.bytes, count, data[pos..], ts, c);
  }

  lemma PageWithoutData(page: seq<byte>, c: Config)
    requires |page| == PAGE_SIZE && ConfigOk(c)
    requires Get32(page[8..12]) == 0 || Get32(page[8..12]) > PAGE_SIZE - PAGE_DATA_OFFSET
    ensures Emitted(PageEvents(page), c) == [] && Flat(Emitted(PageEvents(page), c)) == []
  {
    hide ConfigOk, Get32;
  }

  lemma PendingWhole(out: seq<byte>, page: seq<byte>, c: Config)
    requires |page| == PAGE_SIZE && ConfigOk(c)
    requires 0 < Get32(page[8..12]) <= PAGE_SIZE - PAGE_DATA_OFFSET
    ensures var data := page[PAGE_DATA_OFFSET..PAGE_DATA_OFFSET + Get32(page[8..12])];
            var ts := Get64(page[0..8]);
            && PendingBytes(out, data, ts, c) == out + Flat(Emitted(PageEvents(page), c))
            && PendingCount(0, data, ts, c) == |Emitted(PageEvents(page), c)|
  {
    hide Scan, Emitted, Flat, ConfigOk, Get32, Get64;
  }

  lemma EmittedNil(c: Config)
    requires ConfigOk(c)
    ensures Emitted([], c) == []
  {
  }

  lemma FlatNil()
    ensures Flat([]) == []
  {
  }
}
