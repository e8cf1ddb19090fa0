/** Encoder to decoder: what the record reader makes of the bytes the page decoder appended. */
module PageDecode {
  import opened Bytes
  import opened Records
  import opened Reader
  import opened Ftrace

  predicate IsSubmit(e: Stamped, c: Config) {
    |e.payload| >= 2 && At16(e.payload, 0) == c.submitId
  }

  /** A submit event whose descriptor blob is not a whole number of entries. */
  predicate Misaligned(e: Stamped, c: Config)
    requires ConfigOk(c)
  {
    && IsSubmit(e, c) && SubmitFits(e.payload, c.submitFmt)
    && |Descriptors(e.payload, c.submitFmt)| % EntryLen(UsesSgl(e.payload, c.submitFmt)) != 0
  }

  /** The trace record of a matching event. */
  function RecordOf(e: Stamped, c: Config): (r: TraceRecord)
    requires ConfigOk(c) && Encoded(e, c).Some? && !Misaligned(e, c)
    ensures r.Hdr().seqNo == 0 && r.Hdr().timestampNs == e.ts && r.Submit? == IsSubmit(e, c)
  {
    if IsSubmit(e, c) then SubmitEvent(e.payload, e.ts, c.submitFmt)
    else CompleteEvent(e.payload, e.ts, c.completeFmt)
  }

  function EventRecords(es: seq<Stamped>, c: Config): (rs: seq<TraceRecord>)
    requires ConfigOk(c) && forall e <- es :: !Misaligned(e, c)
    ensures |rs| <= |es|
  {
    if es == [] then []
    else (if Encoded(es[0], c).Some? then [RecordOf(es[0], c)] else []) + EventRecords(es[1..], c)
  }

  /** How many events come before the first misaligned one. */
  function AlignedPrefix(es: seq<Stamped>, c: Config): (n: nat)
    requires ConfigOk(c)
    ensures n <= |es|
    ensures forall e <- es[..n] :: !Misaligned(e, c)
    ensures n < |es| ==> Misaligned(es[n], c)
  {
    if es == [] || Misaligned(es[0], c) then 0
    else
      var n := AlignedPrefix(es[1..], c);
      assert es[..n + 1] == [es[0]] + es[1..][..n];
      n + 1
  }

  function TraceRecords(rs: seq<RawRecord>): (ts: seq<TraceRecord>)
    ensures |ts| == |rs|
    ensures forall k :: 0 <= k < |rs| ==> ts[k] == rs[k].record
  {
    seq(|rs|, k requires 0 <= k < |rs| => rs[k].record)
  }

  /** Small enough for the 16-bit record length; true of every payload that fits in a page. */
  predicate Sized(e: Stamped) {
    |e.payload| <= PAGE_SIZE - PAGE_DATA_OFFSET
  }

  /** Which event is converted, by its first two bytes: a submit id wins over an equal completion id. */
  predicate SubmitTagged(p: seq<byte>, c: Config) {
    |p| >= 2 && U16At(p, 0) == c.submitId
  }

  predicate CompleteTagged(p: seq<byte>, c: Config) {
    |p| >= 2 && U16At(p, 0) != c.submitId && U16At(p, 0) == c.completeId
  }

  /** Which events give a record, which of them are misaligned, and what the record of the others is. */
  lemma RecordOfMeans(e: Stamped, c: Config)
    requires ConfigOk(c)
    ensures var p, s, m := e.payload, c.submitFmt, c.completeFmt;
            && (Encoded(e, c).Some? <==>
                  || (SubmitTagged(p, c) && s.descriptors + 4 <= |p| && s.sqe + 64 <= |p|)
                  || (CompleteTagged(p, c) && m.retries + 1 <= |p|))
            && (Misaligned(e, c) ==> Encoded(e, c).Some? && SubmitTagged(p, c))
            && (Encoded(e, c).Some? && SubmitTagged(p, c) ==>
                  forall blob :: BlobNamed(p, s, blob) && 100 + |blob| < 0x1_0000 ==>
                    && (Misaligned(e, c) <==> |blob| % (if p[s.useSgl] != 0 then 16 else 8) != 0)
                    && (!Misaligned(e, c) ==>
                          RecordOf(e, c).Submit? && SubmitFrom(RecordOf(e, c).submit, p, e.ts, s, blob)))
            && (Encoded(e, c).Some? && CompleteTagged(p, c) ==>
                  RecordOf(e, c).Complete? && CompleteFrom(RecordOf(e, c).complete, p, e.ts, m))
  {
    hide At16, U16At, Descriptors, BlobNamed, SubmitFrom, CompleteFrom, SubmitEvent, CompleteEvent, EncodedSubmit,
      EncodedComplete;
    var p, s, m := e.payload, c.submitFmt, c.completeFmt;
    FieldReads(p, 0);
    EncodedSubmitSome(p, e.ts, s);
    EncodedCompleteSome(p, e.ts, m);
    if Encoded(e, c).Some? && SubmitTagged(p, c) {
      forall blob | BlobNamed(p, s, blob) && 100 + |blob| < 0x1_0000
        ensures Misaligned(e, c) <==> |blob| % (if p[s.useSgl] != 0 then 16 else 8) != 0
        ensures !Misaligned(e, c) ==>
                  RecordOf(e, c).Submit? && SubmitFrom(RecordOf(e, c).submit, p, e.ts, s, blob)
      {
        TaggedSubmit(e, c, blob);
      }
    }
    if Encoded(e, c).Some? && CompleteTagged(p, c) {
      CompleteEventMeans(p, e.ts, m);
    }
  }

  lemma TaggedSubmit(e: Stamped, c: Config, blob: seq<byte>)
    requires ConfigOk(c) && IsSubmit(e, c) && SubmitFits(e.payload, c.submitFmt)
    requires BlobNamed(e.payload, c.submitFmt, blob) && 100 + |blob| < 0x1_0000
    ensures Misaligned(e, c) <==> |blob| % (if e.payload[c.submitFmt.useSgl] != 0 then 16 else 8) != 0
    ensures !Misaligned(e, c) ==>
              && EncodedSubmit(e.payload, e.ts, c.submitFmt).Some?
              && RecordOf(e, c).Submit? && SubmitFrom(RecordOf(e, c).submit, e.payload, e.ts, c.submitFmt, blob)
  {
    hide At16, U16At, Descriptors, BlobNamed, SubmitFrom, SubmitEvent;
    BlobIs(e.payload, c.submitFmt, blob);
    if !Misaligned(e, c) {
      SubmitEventMeans(e.payload, e.ts, c.submitFmt, blob);
    }
  }

  /** One emitted record in front of any bytes: read back if aligned, rejected if not. */
  lemma NextOfEmitted(e: Stamped, c: Config, rest: seq<byte>, offset: nat)
    requires ConfigOk(c) && Encoded(e, c).Some? && Sized(e)
    ensures var b := Encoded(e, c).value;
            var step := Next(b + rest, offset);
            && (Misaligned(e, c) ==> step == Fail(InvalidLength(offset, SUBMIT, |b|, TailMismatch)))
            && (!Misaligned(e, c) ==>
                  step.Rec? && step.raw.bytes == b && step.raw.record == RecordOf(e, c)
                  && step.raw.header == RecordOf(e, c).Hdr())
  {
    hide ParseRecordBytes, EncodedSubmit, EncodedComplete, SubmitFormatOk, CompleteFormatOk, Descriptors, HeaderOf,
      TailOf, At16, At32, At64;
    var b := Encoded(e, c).value;
    if IsSubmit(e, c) {
      EncodedSubmitSome(e.payload, e.ts, c.submitFmt);
      EncodedSubmitParses(e.payload, e.ts, c.submitFmt, offset);
      EncodedSubmitHeader(e.payload, e.ts, c.submitFmt);
    } else {
      EncodedCompleteSome(e.payload, e.ts, c.completeFmt);
      EncodedCompleteParses(e.payload, e.ts, c.completeFmt, offset);
      EncodedCompleteHeader(e.payload, e.ts, c.completeFmt);
    }
    assert (b + rest)[..HEADER_LEN] == b[..HEADER_LEN];
    assert (b + rest)[..|b|] == b;
  }

  lemma EncodedSubmitSome(data: seq<byte>, ts: u64, f: SubmitFormat)
    requires SubmitFormatOk(f)
    ensures EncodedSubmit(data, ts, f).Some? <==> SubmitFits(data, f)
  {
  }

  lemma EncodedCompleteSome(data: seq<byte>, ts: u64, f: CompleteFormat)
    requires CompleteFormatOk(f)
    ensures EncodedComplete(data, ts, f).Some? <==> CompleteFits(data, f)
  {
  }

  lemma EncodedSubmitHeader(data: seq<byte>, ts: u64, f: SubmitFormat)
    requires SubmitFormatOk(f) && SubmitFits(data, f)
    ensures var b := EncodedSubmit(data, ts, f).value;
            |b| >= SUBMIT_FIXED_LEN && HeaderOf(b[..HEADER_LEN]) == SubmitHeader(data, ts, f)
  {
    hide HeaderOf, SubmitFixedImage, Descriptors, At32, At16, LowByte;
    var d := Descriptors(data, f);
    SubmitFixedFields(SubmitHeader(data, ts, f), data[f.sqe..f.sqe + SQE_LEN], At32(data, f.dataLen),
                      At32(data, f.metaLen), UsesSgl(data, f), data[f.singleSegment] != 0,
                      Entries(d, UsesSgl(data, f)), d);
  }

  lemma EncodedCompleteHeader(data: seq<byte>, ts: u64, f: CompleteFormat)
    requires CompleteFormatOk(f) && CompleteFits(data, f)
    ensures var b := EncodedComplete(data, ts, f).value;
            |b| == COMPLETE_LEN && HeaderOf(b[..HEADER_LEN]) == CompleteHeader(data, ts, f)
  {
    hide HeaderOf, CompleteImage, At32, At16, At64, LowByte;
    CompleteFields(CompleteHeader(data, ts, f), At64(data, f.result), At16(data, f.sqHead),
                   At16(data, f.sqId), At16(data, f.status), data[f.retries]);
  }

  /** Reading what a list of decoded events was encoded to: the records of the events up to the first
      misaligned one come back in order, with sequence number 0 and the events' timestamps; reading
      ends cleanly iff no event is misaligned, and otherwise with the tail-length error. */
  lemma {:induction false} DecodeEmitted(es: seq<Stamped>, c: Config, offset: nat)
    requires ConfigOk(c) && forall e <- es :: Sized(e)
    ensures var d := Decode(Flat(Emitted(es, c)), offset);
            var n := AlignedPrefix(es, c);
            && TraceRecords(d.records) == EventRecords(es[..n], c)
            && (d.end == None <==> n == |es|)
            && (n < |es| ==> d.end.value.InvalidLength? && d.end.value.reason == TailMismatch)
  {
    hide Encoded, Emitted, Flat, Decode, Next, Misaligned, RecordOf, ConfigOk;
    if es == [] {
      EmittedNil(c);
      FlatNil();
      DecodeEmpty(offset);
    } else {
      var e, tail := es[0], es[1..];
      assert es == [e] + tail;
      EmittedCons(e, tail, c);
      var rest := Flat(Emitted(tail, c));
      if Encoded(e, c).None? {
        assert Emitted(es, c) == Emitted(tail, c);
        NotEncodedAligned(e, c);
        DecodeEmitted(tail, c, offset);
        ConsPrefix(e, tail, c);
      } else {
        var b := Encoded(e, c).value;
        assert [b] + Emitted(tail, c) == Emitted(es, c);
        FlatCons(b, Emitted(tail, c));
        NextOfEmitted(e, c, rest, offset);
        if Misaligned(e, c) {
          DecodeStop(b + rest, offset);
          assert es[..0] == [];
        } else {
          assert (b + rest)[|b|..] == rest;
          DecodeStep(b + rest, offset, Next(b + rest, offset).raw, rest);
          DecodeEmitted(tail, c, offset + |b|);
          ConsPrefix(e, tail, c);
        }
      }
    }
  }

  lemma NotEncodedAligned(e: Stamped, c: Config)
    requires ConfigOk(c) && Encoded(e, c).None?
    ensures !Misaligned(e, c)
  {
  }

  lemma ConsPrefix(e: Stamped, tail: seq<Stamped>, c: Config)
    requires ConfigOk(c) && !Misaligned(e, c)
    ensures var es := [e] + tail;
            var n := AlignedPrefix(tail, c);
            && AlignedPrefix(es, c) == n + 1
            && EventRecords(es[..n + 1], c)
               == (if Encoded(e, c).Some? then [RecordOf(e, c)] else []) + EventRecords(tail[..n], c)
  {
    hide Encoded, Misaligned, RecordOf, ConfigOk;
    var es := [e] + tail;
    assert es[1..] == tail;
    var n := AlignedPrefix(tail, c);
    assert es[..n + 1][1..] == tail[..n];
  }

  // ---------------------------------------------------------------- whole capture files

  /** All data events of a sequence of pages. */
  function PagesEvents(pages: seq<seq<byte>>): (es: seq<Stamped>)
    requires forall p <- pages :: |p| == PAGE_SIZE
  {
    if pages == [] then [] else PageEvents(pages[0]) + PagesEvents(pages[1..])
  }

  /** The bytes that converting the pages one after another appends. */
  function PagesBytes(pages: seq<seq<byte>>, c: Config): (b: seq<byte>)
    requires ConfigOk(c) && forall p <- pages :: |p| == PAGE_SIZE
  {
    if pages == [] then [] else Flat(Emitted(PageEvents(pages[0]), c)) + PagesBytes(pages[1..], c)
  }

  lemma {:induction false} EmittedConcat(a: seq<Stamped>, b: seq<Stamped>, c: Config)
    requires ConfigOk(c)
    ensures Emitted(a + b, c) == Emitted(a, c) + Emitted(b, c)
  {
    hide Encoded, ConfigOk;
    if a == [] {
      assert a + b == b;
    } else {
      assert (a + b)[1..] == a[1..] + b;
      EmittedConcat(a[1..], b, c);
    }
  }

  lemma {:induction false} FlatConcat(a: seq<seq<byte>>, b: seq<seq<byte>>)
    ensures Flat(a + b) == Flat(a) + Flat(b)
  {
    if a == [] {
      assert a + b == b;
    } else {
      assert (a + b)[1..] == a[1..] + b;
      FlatConcat(a[1..], b);
    }
  }

  lemma {:induction false} PagesBytesAreEvents(pages: seq<seq<byte>>, c: Config)
    requires ConfigOk(c) && forall p <- pages :: |p| == PAGE_SIZE
    ensures PagesBytes(pages, c) == Flat(Emitted(PagesEvents(pages), c))
  {
    hide Emitted, Flat, PageEvents, ConfigOk;
    if pages == [] {
      EmittedNil(c);
      FlatNil();
    } else {
      PagesBytesAreEvents(pages[1..], c);
      var a, b := PageEvents(pages[0]), PagesEvents(pages[1..]);
      EmittedConcat(a, b, c);
      FlatConcat(Emitted(a, c), Emitted(b, c));
    }
  }

  lemma {:induction false} ScanSized(d: seq<byte>, ts: u64)
    ensures forall e <- Scan(d, ts) :: |e.payload| <= |d|
    decreases |d|
  {
    hide WrappingAdd, Header32;
    match NextTurn(d, ts) {
      case Stop =>
      case Time(n, ts') => ScanSized(d[n..], ts');
      case Event(n, e) => ScanSized(d[n..], e.ts);
    }
  }

  lemma {:induction false} PagesSized(pages: seq<seq<byte>>)
    requires forall p <- pages :: |p| == PAGE_SIZE
    ensures forall e <- PagesEvents(pages) :: Sized(e)
  {
    if pages != [] {
      var page := pages[0];
      var commit := Get32(page[8..12]);
      if 0 < commit <= PAGE_SIZE - PAGE_DATA_OFFSET {
        ScanSized(page[PAGE_DATA_OFFSET..PAGE_DATA_OFFSET + commit], Get64(page[0..8]));
      }
      PagesSized(pages[1..]);
    }
  }

  /** End to end for one capture file: with every descriptor blob a whole number of entries, the reader
      gets exactly the records of the matching events of all the pages, and then the end of the file. */
  lemma CaptureFileDecodes(pages: seq<seq<byte>>, c: Config)
    requires ConfigOk(c) && forall p <- pages :: |p| == PAGE_SIZE
    ensures var es := PagesEvents(pages);
            var d := Decode(PagesBytes(pages, c), 0);
            && (d.end == None <==> forall e <- es :: !Misaligned(e, c))
            && (d.end == None ==>
                  && TraceRecords(d.records) == EventRecords(es, c)
                  && |d.records| == |Emitted(es, c)|)
  {
    hide Decode, Encoded, Misaligned, RecordOf, ConfigOk, Flat;
    var es := PagesEvents(pages);
    PagesBytesAreEvents(pages, c);
    PagesSized(pages);
    DecodeEmitted(es, c, 0);
    if AlignedPrefix(es, c) == |es| {
      assert es[..|es|] == es;
      EmittedCount(es, c);
    }
  }

  lemma {:induction false} EmittedCount(es: seq<Stamped>, c: Config)
    requires ConfigOk(c) && forall e <- es :: !Misaligned(e, c)
    ensures |EventRecords(es, c)| == |Emitted(es, c)|
  {
    hide Encoded, Misaligned, RecordOf, ConfigOk;
    if es != [] {
      EmittedCount(es[1..], c);
    }
  }
}
