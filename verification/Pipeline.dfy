/**
 The chain from ring-buffer pages to samples: per-CPU pages are converted to files,
 the files are spliced, and the spliced file is decoded and analyzed.
 */
module Pipeline {
  import opened Bytes
  import opened Records
  import opened Reader
  import opened Order
  import opened Ftrace
  import opened PageDecode
  import opened Splice
  import Pages
  import Grid
  import Analysis
  import Capture
  import QueueDepth

  type PageList = ps: seq<seq<byte>> | forall p <- ps :: |p| == PAGE_SIZE witness []

  /** The capture files of the CPUs. */
  function Files(cpus: seq<PageList>, c: Config): (streams: seq<seq<byte>>)
    requires ConfigOk(c)
    ensures |streams| == |cpus|
    ensures forall i :: 0 <= i < |cpus| ==> streams[i] == PagesBytes(cpus[i], c)
  {
    seq(|cpus|, i requires 0 <= i < |cpus| => PagesBytes(cpus[i], c))
  }

  /** No submit event has a descriptor blob that is not a whole number of entries. */
  ghost predicate Aligned(cpus: seq<PageList>, c: Config)
    requires ConfigOk(c)
  {
    forall i :: 0 <= i < |cpus| ==> forall e <- PagesEvents(cpus[i]) :: !Misaligned(e, c)
  }

  /** On each CPU the matching events do not go back in time. */
  ghost predicate CpusInTimeOrder(cpus: seq<PageList>, c: Config)
    requires ConfigOk(c) && Aligned(cpus, c)
  {
    forall i :: 0 <= i < |cpus| ==> Grid.TimeSorted(EventRecords(PagesEvents(cpus[i]), c))
  }

  /** The ring-buffer clock of each CPU runs forward through all of its pages. */
  ghost predicate CpusForward(cpus: seq<PageList>) {
    forall i :: 0 <= i < |cpus| ==> Pages.PagesForward(cpus[i], 0)
  }

  /** Every decoded record is the parse of its own bytes. */
  predicate SelfParsing(raw: RawRecord) {
    ParseRecordBytes(raw.bytes, raw.offset) == Ok(raw)
  }

  lemma NextParses(s: seq<byte>, offset: nat)
    requires Next(s, offset).Rec?
    ensures SelfParsing(Next(s, offset).raw)
  {
    hide ParseSubmit, ParseComplete, HeaderOf;
    var len := HeaderOf(s[..HEADER_LEN]).len;
    assert |s[..len]| == len;
  }

  lemma {:induction false} DecodeParses(s: seq<byte>, offset: nat)
    ensures forall raw <- Decode(s, offset).records :: SelfParsing(raw)
    decreases |s|
  {
    hide Next, SelfParsing, Decode;
    if Next(s, offset).Rec? {
      var raw := Next(s, offset).raw;
      NextParses(s, offset);
      DecodeStep(s, offset, raw, s[|raw.bytes|..]);
      DecodeParses(s[|raw.bytes|..], offset + |raw.bytes|);
    } else {
      DecodeStop(s, offset);
    }
  }

  function ItemRecords(trace: seq<HeapItem>): (rs: seq<TraceRecord>)
    ensures |rs| == |trace|
    ensures forall k :: 0 <= k < |trace| ==> rs[k] == trace[k].record.record
  {
    seq(|trace|, k requires 0 <= k < |trace| => trace[k].record.record)
  }

  lemma NextOfSelfParsing(raw: RawRecord, rest: seq<byte>, offset: nat)
    requires SelfParsing(raw)
    ensures Next(raw.bytes + rest, offset).Rec?
    ensures var got := Next(raw.bytes + rest, offset).raw;
            got.bytes == raw.bytes && got.record == raw.record && got.header == raw.header
  {
    hide ParseSubmit, ParseComplete, HeaderOf;
    var b := raw.bytes;
    ParsesAnywhere(b, raw.offset, offset);
    assert (b + rest)[..HEADER_LEN] == b[..HEADER_LEN];
    assert (b + rest)[..|b|] == b;
  }

  lemma ParsesAnywhere(b: seq<byte>, from: nat, to: nat)
    requires ParseRecordBytes(b, from).Ok?
    ensures ParseRecordBytes(b, to).Ok?
    ensures ParseRecordBytes(b, to).value == ParseRecordBytes(b, from).value.(offset := to)
    ensures HEADER_LEN <= |b| && ParseHeader(b[..HEADER_LEN], to).Ok? && HeaderOf(b[..HEADER_LEN]).len == |b|
  {
    hide ParseRecordBytes;
    ParseMoved(b, 0, from);
    ParseMoved(b, 0, to);
    ParsedFrom(b, to);
  }

  lemma DecodeOne(item: HeapItem, rest: seq<byte>, offset: nat) returns (got: RawRecord)
    requires SelfParsing(item.record)
    ensures got.record == item.record.record
    ensures var n, b := |item.record.bytes|, item.record.bytes + rest;
            var d := Decode(rest, offset + n);
            Decode(b, offset) == Decoded([got] + d.records, d.end)
  {
    hide Decode, Next, SelfParsing;
    var raw := item.record;
    NextOfSelfParsing(raw, rest, offset);
    got := Next(raw.bytes + rest, offset).raw;
    assert (raw.bytes + rest)[|raw.bytes|..] == rest;
    DecodeStep(raw.bytes + rest, offset, got, rest);
  }

  lemma RecordsCons(trace: seq<HeapItem>, got: RawRecord, tail: seq<RawRecord>)
    requires trace != [] && got.record == trace[0].record.record
    requires TraceRecords(tail) == ItemRecords(trace[1..])
    ensures TraceRecords([got] + tail) == ItemRecords(trace)
  {
    hide TraceRecords, ItemRecords;
    RecordLists(trace[1..], tail);
    RecordLists(trace, [got] + tail);
  }

  /** The spliced bytes decode to the records of the trace. */
  lemma {:induction false} DecodeTrace(trace: seq<HeapItem>, offset: nat)
    requires forall item <- trace :: SelfParsing(item.record)
    ensures var d := Decode(TraceBytes(trace), offset);
            d.end == None && TraceRecords(d.records) == ItemRecords(trace)
    decreases |trace|
  {
    hide Decode, Next, SelfParsing, TraceBytes, TraceRecords, ItemRecords;
    if trace == [] {
      DecodeEmpty(offset);
      RecordLists([], []);
    } else {
      var rest, n := TraceBytes(trace[1..]), |trace[0].record.bytes|;
      TraceBytesCons(trace);
      var got := DecodeOne(trace[0], rest, offset);
      DecodeTrace(trace[1..], offset + n);
      RecordsCons(trace, got, Decode(rest, offset + n).records);
    }
  }

  lemma TraceBytesCons(trace: seq<HeapItem>)
    requires trace != []
    ensures TraceBytes(trace) == trace[0].record.bytes + TraceBytes(trace[1..])
  {
  }

  /** Equal record lists, element by element. */
  lemma RecordLists(trace: seq<HeapItem>, rs: seq<RawRecord>)
    ensures TraceRecords(rs) == ItemRecords(trace)
            <==> |rs| == |trace| && forall k :: 0 <= k < |rs| ==> rs[k].record == trace[k].record.record
    ensures trace == [] ==> TraceBytes(trace) == []
  {
    if |rs| == |trace| && forall k :: 0 <= k < |rs| ==> rs[k].record == trace[k].record.record {
      assert forall k :: 0 <= k < |rs| ==> TraceRecords(rs)[k] == ItemRecords(trace)[k];
    } else if |rs| == |trace| {
      var k :| 0 <= k < |rs| && rs[k].record != trace[k].record.record;
      assert TraceRecords(rs)[k] != ItemRecords(trace)[k];
    }
  }

  // ---------------------------------------------------------------- capture files

  lemma {:induction false} RecordsInTimeOrder(es: seq<Stamped>, c: Config)
    requires ConfigOk(c) && (forall e <- es :: !Misaligned(e, c)) && Pages.StampsSorted(es)
    ensures Grid.TimeSorted(EventRecords(es, c))
    ensures forall r <- EventRecords(es, c) :: es != [] && es[0].ts <= r.Hdr().timestampNs
  {
    hide Encoded, Misaligned, ConfigOk;
    if es != [] {
      RecordsInTimeOrder(es[1..], c);
      var tail := EventRecords(es[1..], c);
      forall r <- tail
        ensures es[0].ts <= r.Hdr().timestampNs
      {
        assert es[0].ts <= es[1].ts;
      }
    }
  }

  lemma {:induction false} RecordsUnnumbered(es: seq<Stamped>, c: Config)
    requires ConfigOk(c) && forall e <- es :: !Misaligned(e, c)
    ensures forall r <- EventRecords(es, c) :: r.Hdr().seqNo == 0
  {
    hide Encoded, Misaligned, ConfigOk;
    if es != [] {
      RecordsUnnumbered(es[1..], c);
    }
  }

  /** A clock that runs forward is enough. */
  lemma ForwardCpus(cpus: seq<PageList>, c: Config)
    requires ConfigOk(c) && Aligned(cpus, c) && CpusForward(cpus)
    ensures CpusInTimeOrder(cpus, c)
  {
    hide Pages.PagesForward, Pages.StampsSorted, PagesEvents, EventRecords, Grid.TimeSorted, Misaligned, ConfigOk;
    forall i | 0 <= i < |cpus|
      ensures Grid.TimeSorted(EventRecords(PagesEvents(cpus[i]), c))
    {
      Pages.PagesInTimeOrder(cpus[i], 0);
      RecordsInTimeOrder(PagesEvents(cpus[i]), c);
    }
  }

  /** Headers of decoded records are the headers of their trace records. */
  lemma {:induction false} DecodedHeaders(s: seq<byte>, offset: nat)
    ensures forall raw <- Decode(s, offset).records :: raw.header == raw.record.Hdr()
    decreases |s|
  {
    hide Next, SelfParsing, Decode, Serialize, RecordWf, Canonical;
    DecodeParses(s, offset);
    forall raw <- Decode(s, offset).records
      ensures raw.header == raw.record.Hdr()
    {
      HeaderOfParsed(raw);
    }
  }

  lemma HeaderOfParsed(raw: RawRecord)
    requires SelfParsing(raw)
    ensures raw.header == raw.record.Hdr()
  {
    hide ParseRecordBytes, Serialize, RecordWf, Canonical;
    SerializeParse(raw.bytes, raw.offset);
  }

  /** One capture file as a splice input. */
  lemma FileAsInput(pages: PageList, c: Config)
    requires ConfigOk(c) && (forall e <- PagesEvents(pages) :: !Misaligned(e, c))
    ensures var d := Decode(PagesBytes(pages, c), 0);
            && d.end == None && TraceRecords(d.records) == EventRecords(PagesEvents(pages), c)
            && (SortedBy(TimeLe, d.records) <==> Grid.TimeSorted(EventRecords(PagesEvents(pages), c)))
            && forall raw <- d.records :: raw.header.seqNo == 0
  {
    hide Decode, Misaligned, ConfigOk, PagesEvents, PagesBytes, EventRecords;
    var es := PagesEvents(pages);
    var d := Decode(PagesBytes(pages, c), 0);
    CaptureFileDecodes(pages, c);
    RecordsUnnumbered(es, c);
    DecodedHeaders(PagesBytes(pages, c), 0);
    var rs := EventRecords(es, c);
    forall i | 0 <= i < |d.records|
      ensures d.records[i].header == rs[i].Hdr()
    {
      assert TraceRecords(d.records)[i] == rs[i] && d.records[i] in d.records;
    }
    forall raw <- d.records
      ensures raw.header.seqNo == 0
    {
      var i :| 0 <= i < |d.records| && d.records[i] == raw;
      assert TraceRecords(d.records)[i] == rs[i] && rs[i] in rs;
    }
  }

  // ---------------------------------------------------------------- the whole chain

  lemma FilesAsInputs(cpus: seq<PageList>, c: Config)
    requires ConfigOk(c) && Aligned(cpus, c)
    ensures var streams := Files(cpus, c);
            && AllClean(streams) && NoSeqs(AllHeaders(Inputs(streams))) && TransitiveOn(AllHeaders(Inputs(streams)))
            && (InputsSortedBy(TimeLe, Inputs(streams)) <==> CpusInTimeOrder(cpus, c))
  {
    hide Decode, Misaligned, ConfigOk, PagesEvents, PagesBytes, EventRecords, AllHeaders, SortedBy, Grid.TimeSorted;
    var streams := Files(cpus, c);
    var inputs: Remaining := Inputs(streams);
    forall i | 0 <= i < |cpus|
      ensures Decode(streams[i], 0).end == None
      ensures SortedBy(TimeLe, inputs[i]) <==> Grid.TimeSorted(EventRecords(PagesEvents(cpus[i]), c))
      ensures forall raw: RawRecord <- inputs[i] :: raw.header.seqNo == 0
    {
      FileAsInput(cpus[i], c);
    }
    forall s <- streams
      ensures Clean(s)
    {
      var i :| 0 <= i < |streams| && streams[i] == s;
    }
    forall h <- AllHeaders(inputs)
      ensures h.seqNo == 0
    {
      var i, k :| 0 <= i < |inputs| && 0 <= k < |inputs[i]| && inputs[i][k].header == h;
      assert inputs[i][k] in inputs[i];
    }
    NoSeqsTransitive(AllHeaders(inputs));
  }

  lemma TraceSelfParsing(streams: seq<seq<byte>>, names: seq<Name>, trace: seq<HeapItem>)
    requires FullRun(names, Inputs(streams), trace, true)
    ensures forall item <- trace :: SelfParsing(item.record) && item.record.header == item.record.record.Hdr()
  {
    hide Decode, Run, SelfParsing;
    var end :| AllEmpty(end) && Run(names, Inputs(streams), trace, end, true);
    RunIndices(names, Inputs(streams), trace, end, true);
    forall item <- trace
      ensures SelfParsing(item.record) && item.record.header == item.record.record.Hdr()
    {
      DecodeParses(streams[item.inputIndex], 0);
      HeaderOfParsed(item.record);
    }
  }

  /**
   End to end, for captures whose descriptor blobs are whole entries. Whatever trace the splice performs on
   the capture files, its output decodes cleanly; the records it took from each CPU are exactly the matching
   events of that CPU's pages, in order; and the output is in time order, without warnings, exactly when the
   matching events of every CPU are. Such an output is what the sampled queue depths are exact for.
   */
  lemma EndToEnd(cpus: seq<PageList>, c: Config, names: seq<Name>, trace: seq<HeapItem>)
    requires ConfigOk(c) && Aligned(cpus, c) && |names| == |cpus|
    requires FullRun(names, Inputs(Files(cpus, c)), trace, true)
    ensures AllClean(Files(cpus, c))
    ensures var d := Decode(TraceBytes(trace), 0);
            d.end == None && TraceRecords(d.records) == ItemRecords(trace)
    ensures forall i :: 0 <= i < |cpus| ==>
              TraceRecords(Project(trace, i)) == EventRecords(PagesEvents(cpus[i]), c)
    ensures |TraceBytes(trace)| == SumLengths(Files(cpus, c))
    ensures Grid.TimeSorted(ItemRecords(trace)) <==> CpusInTimeOrder(cpus, c)
    ensures CpusInTimeOrder(cpus, c) ==> Splice.Warnings(trace) == []
  {
    hide Decode, Misaligned, ConfigOk, PagesEvents, PagesBytes, EventRecords, AllHeaders, FullRun, SelfParsing,
      Splice.Warnings, InputsSortedBy, NoSeqs, AllClean, TransitiveOn, TraceBytes, Project, CpusInTimeOrder;
    var streams := Files(cpus, c);
    FilesAsInputs(cpus, c);
    SpliceTimeSorted(names, Inputs(streams), trace);
    SpliceConserves(streams, names, trace, true);
    TraceSelfParsing(streams, names, trace);
    DecodeTrace(trace, 0);
    forall i | 0 <= i < |trace|
      ensures ItemRecords(trace)[i].Hdr() == trace[i].record.header
    {
      assert trace[i] in trace;
    }
    forall i | 0 <= i < |cpus|
      ensures TraceRecords(Project(trace, i)) == EventRecords(PagesEvents(cpus[i]), c)
    {
      FileAsInput(cpus[i], c);
    }
  }

  /** The last link: over that list the analysis writes, in ascending order, exactly the rows that are due: at each
      grid time the global depth, and the depth of every queue submitted to, after exactly the records of the
      whole capture up to that time. */
  lemma EndToEndSamples(cpus: seq<PageList>, c: Config, names: seq<Name>, trace: seq<HeapItem>, scale: u64)
    requires ConfigOk(c) && Aligned(cpus, c) && CpusInTimeOrder(cpus, c) && |names| == |cpus|
    requires FullRun(names, Inputs(Files(cpus, c)), trace, true)
    requires scale > 0 && trace != [] && Grid.MaxOffset(Analysis.Offsets(ItemRecords(trace))) <= Grid.Top(scale)
    ensures var rs := TraceRecords(Decode(TraceBytes(trace), 0).records);
            && rs == ItemRecords(trace)
            && var rows := QueueDepth.Rows(QueueDepth.Samples(rs, scale), rs);
            Grid.RowsAscend(rows) && forall row :: row in rows <==> Grid.RowDue(row, rs, scale)
  {
    hide Decode, Misaligned, ConfigOk, PagesEvents, PagesBytes, EventRecords, FullRun, Splice.Warnings, Aligned,
      CpusInTimeOrder, TraceBytes, Project, QueueDepth.Samples, QueueDepth.Rows, Grid.RowDue, Grid.RowsAscend,
      Grid.MaxOffset, Grid.Top, AllClean;
    EndToEnd(cpus, c, names, trace);
    Grid.OutputExactly(ItemRecords(trace), scale);
  }

  /** The pages each CPU of a capture run produced. */
  function ProducedPages(s: Capture.Sys): (cpus: seq<PageList>)
    ensures |cpus| == |s.cpus|
    ensures forall i :: 0 <= i < |cpus| ==> cpus[i] == s.cpus[i].produced
  {
    seq(|s.cpus|, i requires 0 <= i < |s.cpus| => s.cpus[i].produced)
  }

  /** The capture files as the readers left them. */
  function ReaderFiles(s: Capture.Sys): (files: seq<seq<byte>>)
    ensures |files| == |s.cpus|
  {
    seq(|s.cpus|, i requires 0 <= i < |s.cpus| => s.cpus[i].reader.file)
  }

  /** The first link: the files a successful capture without a lossy read leaves behind are the files of
      everything produced. */
  lemma CaptureFeedsSplice(n: nat, steps: seq<Capture.Step>, c: Config)
    requires ConfigOk(c) && Capture.Run(n, steps, c, true).Some?
    requires Capture.Run(n, steps, c, true).value.main == Capture.Ended(true)
    ensures var s := Capture.Run(n, steps, c, true).value;
            |s.cpus| == n && ReaderFiles(s) == Files(ProducedPages(s), c)
  {
    hide Capture.Run, ConfigOk, PagesBytes, Capture.PagesCount;
    Capture.CaptureComplete(n, steps, c);
    Capture.FilesAlwaysOk(n, steps, c, true);
    var s := Capture.Run(n, steps, c, true).value;
    forall i | 0 <= i < n
      ensures s.cpus[i].reader.file == Files(ProducedPages(s), c)[i]
    {
      assert s.cpus[i] in s.cpus;
    }
  }

  /**
   From the ring buffers to the spliced trace. The files of a capture that succeeds without a lossy read,
   descriptor blobs being whole entries, are spliced into a trace that decodes cleanly and holds of each CPU
   every matching event that CPU produced, in order; where the ring-buffer clocks run forward, it is in time
   order and there are no warnings.
   */
  lemma CaptureToTrace(n: nat, steps: seq<Capture.Step>, c: Config, names: seq<Name>, trace: seq<HeapItem>)
    requires ConfigOk(c) && Capture.Run(n, steps, c, true).Some? && |names| == n
    requires Capture.Run(n, steps, c, true).value.main == Capture.Ended(true)
    requires Aligned(ProducedPages(Capture.Run(n, steps, c, true).value), c)
    requires FullRun(names, Inputs(ReaderFiles(Capture.Run(n, steps, c, true).value)), trace, true)
    ensures var s := Capture.Run(n, steps, c, true).value;
            var d := Decode(TraceBytes(trace), 0);
            && d.end == None && TraceRecords(d.records) == ItemRecords(trace)
            && |s.cpus| == n
            && (forall i :: 0 <= i < n ==>
                  TraceRecords(Project(trace, i)) == EventRecords(PagesEvents(s.cpus[i].produced), c))
            && (CpusForward(ProducedPages(s)) ==>
                  Grid.TimeSorted(ItemRecords(trace)) && Splice.Warnings(trace) == [])
  {
    hide Capture.Run, ConfigOk, PagesBytes, PagesEvents, EventRecords, Decode, TraceBytes, FullRun, Aligned,
      CpusInTimeOrder, CpusForward, Splice.Warnings, Project, Grid.TimeSorted;
    CaptureFeedsSplice(n, steps, c);
    var cpus := ProducedPages(Capture.Run(n, steps, c, true).value);
    EndToEnd(cpus, c, names, trace);
    if CpusForward(cpus) {
      ForwardCpus(cpus, c);
    }
  }
}
