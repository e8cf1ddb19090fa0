/**
 The sampled queue-depth analysis of `tracing/nvme-trace/src/analyze.rs`: a mutable
 depth state, fed record by record, and samples of it on a grid of times.
 */
module QueueDepth {
  import opened Bytes
  import opened Records
  import opened Logs
  import opened Analysis

  class QueueDepthState {
    var inFlight: set<CommandKey>
    var knownQueues: set<QueueKey>
    var queueDepths: map<QueueKey, nat>
    var globalDepth: nat
    ghost var history: seq<TraceRecord>

    constructor ()
      ensures Valid() && history == []
    {
      inFlight := {};
      knownQueues := {};
      queueDepths := map[];
      globalDepth := 0;
      history := [];
    }

    /** The fields are the depths of the records applied so far. */
    ghost predicate Valid()
      reads this
    {
      && inFlight == InFlight(history)
      && knownQueues == KnownQueues(history)
      && globalDepth == GlobalDepth(history)
      && DepthsMatch(queueDepths, history)
    }

    method ApplyRecord(record: TraceRecord, log: Log<Warning>)
      requires Valid()
      modifies this, log
      ensures Valid() && history == old(history) + [record]
      ensures log.entries == old(log.entries) + WarningFor(old(history), record)
    {
      hide InFlight, KnownQueues, GlobalDepth, DepthsMatch;
      Snoc(history, record);
      SnocKnown(history, record);
      SnocGlobalDepth(history, record);
      var key := KeyOf(record);
      var queue := key.Queue();
      DepthsMatchNext(queueDepths, history, record);
      history := history + [record];
      match record {
        case Submit(_) =>
          knownQueues := knownQueues + {queue};
          if key in inFlight {
            log.Add(DuplicateSubmit(key));
            return;
          }
          inFlight := inFlight + {key};
          globalDepth := globalDepth + 1;
          var depth := if queue in queueDepths then queueDepths[queue] else 0;
          queueDepths := queueDepths[queue := depth + 1];
        case Complete(_) =>
          if key !in inFlight {
            log.Add(UnmatchedCompletion(key));
            return;
          }
          inFlight := inFlight - {key};
          globalDepth := SaturatingSub(globalDepth, 1);
          if queue in queueDepths {
            queueDepths := queueDepths[queue := SaturatingSub(queueDepths[queue], 1)];
          }
      }
    }
  }

  /** The map holds the depth of every known queue, and no other. */
  ghost predicate DepthsMatch(m: map<QueueKey, nat>, rs: seq<TraceRecord>) {
    && m.Keys == KnownQueues(rs)
    && forall q <- m :: m[q] == Analysis.QueueDepth(rs, q)
  }

  /** What a record does to the depth map; neither depth is 0 when it is lowered. */
  lemma DepthsMatchNext(m: map<QueueKey, nat>, rs: seq<TraceRecord>, r: TraceRecord)
    requires DepthsMatch(m, rs)
    ensures var q := KeyOf(r).Queue();
            && (Odd(rs, r) ==> DepthsMatch(m, rs + [r]))
            && (!Odd(rs, r) && r.Submit? ==> DepthsMatch(m[q := (if q in m then m[q] else 0) + 1], rs + [r]))
            && (!Odd(rs, r) && r.Complete? ==>
                  q in m && m[q] >= 1 && GlobalDepth(rs) >= 1 && DepthsMatch(m[q := m[q] - 1], rs + [r]))
  {
    hide InFlight, KnownQueues, Analysis.QueueDepth, GlobalDepth, DepthsMatch;
    var q := KeyOf(r).Queue();
    SnocKnown(rs, r);
    OtherQueues(rs, r);
    SnocQueueDepth(rs, r, q);
    MatchesOn(m, rs, q);
    if KeyOf(r) in InFlight(rs) {
      DepthsPositive(rs, KeyOf(r));
    }
    if Odd(rs, r) {
      assert q in m || r.Complete?;
      MatchSame(m, rs, rs + [r]);
    } else {
      if q !in KnownQueues(rs) {
        UnknownIsEmpty(rs, q);
      }
      MatchUpdate(m, rs, rs + [r], q);
    }
  }

  lemma OtherQueues(rs: seq<TraceRecord>, r: TraceRecord)
    ensures SameDepths(rs, rs + [r], KeyOf(r).Queue())
  {
    hide InFlight, Analysis.QueueDepth;
    forall p | p != KeyOf(r).Queue()
      ensures Analysis.QueueDepth(rs + [r], p) == Analysis.QueueDepth(rs, p)
    {
      SnocQueueDepth(rs, r, p);
    }
  }

  ghost predicate SameDepths(rs: seq<TraceRecord>, rs': seq<TraceRecord>, except: QueueKey) {
    forall p :: p != except ==> Analysis.QueueDepth(rs', p) == Analysis.QueueDepth(rs, p)
  }

  lemma MatchesOn(m: map<QueueKey, nat>, rs: seq<TraceRecord>, q: QueueKey)
    requires DepthsMatch(m, rs)
    ensures q in m <==> q in KnownQueues(rs)
    ensures q in m ==> m[q] == Analysis.QueueDepth(rs, q)
  {
  }

  lemma MatchUpdate(m: map<QueueKey, nat>, rs: seq<TraceRecord>, rs': seq<TraceRecord>, q: QueueKey)
    requires DepthsMatch(m, rs) && KnownQueues(rs') == KnownQueues(rs) + {q} && SameDepths(rs, rs', q)
    ensures DepthsMatch(m[q := Analysis.QueueDepth(rs', q)], rs')
  {
    hide KnownQueues, Analysis.QueueDepth;
  }

  lemma MatchSame(m: map<QueueKey, nat>, rs: seq<TraceRecord>, rs': seq<TraceRecord>)
    requires exists q :: SameDepths(rs, rs', q) && Analysis.QueueDepth(rs', q) == Analysis.QueueDepth(rs, q)
    requires DepthsMatch(m, rs) && KnownQueues(rs') == KnownQueues(rs)
    ensures DepthsMatch(m, rs')
  {
    hide KnownQueues, Analysis.QueueDepth;
  }

  lemma UnknownIsEmpty(rs: seq<TraceRecord>, q: QueueKey)
    requires q !in KnownQueues(rs)
    ensures Analysis.QueueDepth(rs, q) == 0
  {
    QueuesKnown(rs);
    assert OnQueue(InFlight(rs), q) == {};
  }

  /** The subtractions never saturate: a command in flight counts in both depths. */
  lemma DepthsPositive(rs: seq<TraceRecord>, k: CommandKey)
    requires k in InFlight(rs)
    ensures GlobalDepth(rs) >= 1 && Analysis.QueueDepth(rs, k.Queue()) >= 1
    ensures k.Queue() in KnownQueues(rs)
  {
    QueuesKnown(rs);
    assert k in OnQueue(InFlight(rs), k.Queue());
  }

  // ---------------------------------------------------------------- rows

  datatype Row = GlobalRow(time: u64, depth: nat) | QueueRow(time: u64, queue: QueueKey, depth: nat)

  /** The order in which an ordered set of queues is walked. */
  predicate Before(a: QueueKey, b: QueueKey) {
    a.ctrlId < b.ctrlId || (a.ctrlId == b.ctrlId && a.qid < b.qid)
  }

  predicate IsFirst(q: QueueKey, s: set<QueueKey>) {
    q in s && forall p <- s :: p == q || Before(q, p)
  }

  lemma {:induction false} FirstExists(s: set<QueueKey>)
    requires s != {}
    ensures exists q :: IsFirst(q, s)
    decreases |s|
  {
    var x :| x in s;
    if s == {x} {
      assert IsFirst(x, s);
    } else {
      assert s - {x} != {};
      FirstExists(s - {x});
      var q :| IsFirst(q, s - {x});
      var f := if Before(x, q) then x else q;
      forall p <- s
        ensures p == f || Before(f, p)
      {
        assert p == x || p in s - {x};
      }
      assert IsFirst(f, s);
    }
  }

  function First(s: set<QueueKey>): (q: QueueKey)
    requires s != {}
    ensures IsFirst(q, s)
  {
    FirstExists(s);
    var q :| q in s && IsFirst(q, s);
    q
  }

  /** The queues in ascending order. */
  function Ascending(s: set<QueueKey>): (r: seq<QueueKey>) {
    if s == {} then [] else [First(s)] + Ascending(s - {First(s)})
  }

  lemma {:induction false} AscendingLists(s: set<QueueKey>)
    ensures forall q :: q in Ascending(s) <==> q in s
    ensures forall i, j :: 0 <= i < j < |Ascending(s)| ==> Before(Ascending(s)[i], Ascending(s)[j])
  {
    if s != {} {
      AscendingLists(s - {First(s)});
    }
  }

  function QueueRows(time: u64, qs: seq<QueueKey>, rs: seq<TraceRecord>): (rows: seq<Row>) {
    if qs == [] then []
    else [QueueRow(time, qs[0], Analysis.QueueDepth(rs, qs[0]))] + QueueRows(time, qs[1..], rs)
  }

  /** The rows of one sample: the depths after the records `rs`, over the queues submitted to by then. */
  function SampleRows(time: u64, rs: seq<TraceRecord>): (rows: seq<Row>) {
    [GlobalRow(time, GlobalDepth(rs))] + QueueRows(time, Ascending(KnownQueues(rs)), rs)
  }

  method WriteDepthSample(out: Log<Row>, time: u64, state: QueueDepthState)
    requires state.Valid()
    modifies out
    ensures out.entries == old(out.entries) + SampleRows(time, state.history)
  {
    hide InFlight, KnownQueues, GlobalDepth, Ascending, QueueRows;
    ghost var rs := state.history;
    out.Add(GlobalRow(time, state.globalDepth));
    var rest := state.knownQueues;
    while rest != {}
      invariant rest <= state.knownQueues
      invariant out.entries + QueueRows(time, Ascending(rest), rs) == old(out.entries) + SampleRows(time, rs)
      decreases |rest|
    {
      var queue := First(rest);
      RowsStep(time, rest, rs);
      var depth := if queue in state.queueDepths then state.queueDepths[queue] else 0;
      out.Add(QueueRow(time, queue, depth));
      rest := rest - {queue};
    }
    RowsEnd(time, rs);
  }

  lemma RowsStep(time: u64, rest: set<QueueKey>, rs: seq<TraceRecord>)
    requires rest != {}
    ensures QueueRows(time, Ascending(rest), rs) ==
            [QueueRow(time, First(rest), Analysis.QueueDepth(rs, First(rest)))]
            + QueueRows(time, Ascending(rest - {First(rest)}), rs)
  {
    hide OnQueue, InFlight;
    assert Ascending(rest)[1..] == Ascending(rest - {First(rest)});
  }

  lemma RowsEnd(time: u64, rs: seq<TraceRecord>)
    ensures QueueRows(time, Ascending({}), rs) == []
  {
  }

  // ---------------------------------------------------------------- sampling

  /** A sample: its time, and how many records had been applied. */
  datatype Sample = Sample(time: u64, cut: nat)

  /** One call of the emitter: sample every due time below `bound`, in the state after `cut` records. */
  datatype Call = Call(bound: nat, cut: nat)

  predicate CallsOk(calls: seq<Call>) {
    forall c <- calls :: c.bound <= U64_SIZE
  }

  /** The samples of a list of emitter calls from the next due time. A time whose successor would not
      fit 64 bits is emitted without moving on. */
  function RunCalls(calls: seq<Call>, next: u64, scale: u64): (r: seq<Sample>)
    requires scale > 0
    decreases |calls|, if calls == [] || next >= calls[0].bound then 0 else calls[0].bound - next
  {
    if calls == [] then []
    else if next >= calls[0].bound then RunCalls(calls[1..], next, scale)
    else
      [Sample(next, calls[0].cut)]
      + if next + scale >= U64_SIZE then RunCalls(calls[1..], next, scale) else RunCalls(calls, next + scale, scale)
  }

  /** What one call leaves as the next due time. */
  function NextDue(bound: nat, next: u64, scale: u64): (n: u64)
    requires scale > 0
    decreases if next >= bound then 0 else bound - next
  {
    if next >= bound || next + scale >= U64_SIZE then next else NextDue(bound, next + scale, scale)
  }

  function Rows(samples: seq<Sample>, rs: seq<TraceRecord>): (rows: seq<Row>)
    requires forall s <- samples :: s.cut <= |rs|
  {
    if samples == [] then [] else SampleRows(samples[0].time, rs[..samples[0].cut]) + Rows(samples[1..], rs)
  }

  lemma {:induction false} RunCallsCuts(calls: seq<Call>, next: u64, scale: u64, n: nat)
    requires scale > 0 && forall c <- calls :: c.cut <= n
    ensures forall s <- RunCalls(calls, next, scale) :: s.cut <= n
    decreases |calls|, if calls == [] || next >= calls[0].bound then 0 else calls[0].bound - next
  {
    if calls != [] {
      if next >= calls[0].bound || next + scale >= U64_SIZE {
        RunCallsCuts(calls[1..], next, scale, n);
      } else {
        RunCallsCuts(calls, next + scale, scale, n);
      }
    }
  }

  /** The rows still to be written, given the calls still to be made. */
  ghost function PendingRows(calls: seq<Call>, next: u64, scale: u64, rs: seq<TraceRecord>): seq<Row>
    requires scale > 0 && forall c <- calls :: c.cut <= |rs|
  {
    RunCallsCuts(calls, next, scale, |rs|);
    Rows(RunCalls(calls, next, scale), rs)
  }

  /** The emitter loop, for one call. */
  method EmitDueSamples(out: Log<Row>, state: QueueDepthState, scale: u64, nextSample: u64, limit: u64,
                        includeLimit: bool, ghost calls: seq<Call>, ghost rs: seq<TraceRecord>)
      returns (next: u64)
    requires scale > 0 && state.Valid() && forall c <- calls :: c.cut <= |rs|
    requires calls != [] && calls[0] == Call(if includeLimit then Past(limit) else limit, |state.history|)
    requires state.history <= rs
    modifies out
    ensures next == NextDue(calls[0].bound, nextSample, scale)
    ensures out.entries + PendingRows(calls[1..], next, scale, rs)
            == old(out.entries) + PendingRows(calls, nextSample, scale, rs)
  {
    hide SampleRows, PendingRows, InFlight, KnownQueues, GlobalDepth, DepthsMatch;
    next := nextSample;
    assert state.history == rs[..calls[0].cut];
    while next < limit || (includeLimit && next == limit)
      invariant NextDue(calls[0].bound, next, scale) == NextDue(calls[0].bound, nextSample, scale)
      invariant out.entries + PendingRows(calls, next, scale, rs)
                == old(out.entries) + PendingRows(calls, nextSample, scale, rs)
      decreases calls[0].bound - next
    {
      PendingStep(calls, next, scale, rs);
      WriteDepthSample(out, next, state);
      if next + scale >= U64_SIZE {
        return;
      }
      next := next + scale;
    }
    PendingSkip(calls, next, scale, rs);
  }

  lemma PendingStep(calls: seq<Call>, next: u64, scale: u64, rs: seq<TraceRecord>)
    requires scale > 0 && (forall c <- calls :: c.cut <= |rs|) && calls != [] && next < calls[0].bound
    ensures PendingRows(calls, next, scale, rs) ==
            SampleRows(next, rs[..calls[0].cut])
            + if next + scale >= U64_SIZE then PendingRows(calls[1..], next, scale, rs)
              else PendingRows(calls, next + scale, scale, rs)
  {
    hide SampleRows;
  }

  lemma PendingSkip(calls: seq<Call>, next: u64, scale: u64, rs: seq<TraceRecord>)
    requires scale > 0 && (forall c <- calls :: c.cut <= |rs|) && calls != [] && next >= calls[0].bound
    ensures PendingRows(calls, next, scale, rs) == PendingRows(calls[1..], next, scale, rs)
  {
    hide SampleRows;
  }

  // ---------------------------------------------------------------- the analysis loop

  /** The bound that includes `o`. */
  function Past(o: nat): nat {
    o + 1
  }

  /** The emitter calls made once `i` records have been applied. */
  function CallsFrom(os: seq<u64>, i: nat): (calls: seq<Call>)
    requires 1 <= i <= |os|
    ensures forall c <- calls :: c.cut <= |os|
    decreases |os| - i
  {
    if i == |os| then [Call(Past(os[i - 1]), i)]
    else
      (if os[i] != os[i - 1] then [Call(Past(os[i - 1]), i), Call(os[i], i)] else []) + CallsFrom(os, i + 1)
  }

  function Calls(os: seq<u64>): (calls: seq<Call>)
    ensures forall c <- calls :: c.cut <= |os|
  {
    if os == [] then [] else CallsFrom(os, 1)
  }

  /** The samples of a record list. */
  function Samples(rs: seq<TraceRecord>, scale: u64): (r: seq<Sample>)
    requires scale > 0
    ensures forall s <- r :: s.cut <= |rs|
  {
    RunCallsCuts(Calls(Offsets(rs)), 0, scale, |rs|);
    RunCalls(Calls(Offsets(rs)), 0, scale)
  }

  method AnalyzeQueueDepth(records: seq<TraceRecord>, scale: u64, out: Log<Row>, log: Log<Warning>)
    requires scale > 0
    modifies out, log
    ensures out.entries == old(out.entries) + Rows(Samples(records, scale), records)
    ensures log.entries == old(log.entries) + Warnings(records)
  {
    hide Rows, SampleRows, RunCalls, NextDue, PendingRows, CallsFrom, Offset, Warnings, WarningFor, Samples, InFlight,
      KnownQueues, GlobalDepth, DepthsMatch;
    var state := new QueueDepthState();
    if records == [] {
      EmptyAnalysis(scale);
      return;
    }
    ghost var os := Offsets(records);
    var base := records[0].Hdr().timestampNs;
    var current: u64 := 0;
    var nextSample: u64 := 0;
    OffsetIs(records, 0);
    state.ApplyRecord(records[0], log);
    assert state.history == records[..1] && records[..0] == [];
    WarningsAt(records, 0);
    StartPending(records, scale);
    for i := 1 to |records|
      invariant state.Valid() && state.history == records[..i]
      invariant current == os[i - 1]
      invariant out.entries + PendingRows(CallsFrom(os, i), nextSample, scale, records)
                == old(out.entries) + Rows(Samples(records, scale), records)
      invariant log.entries == old(log.entries) + Warnings(records[..i])
    {
      var offset: u64 := SaturatingSub(records[i].Hdr().timestampNs, base);
      OffsetIs(records, i);
      CallsStep(os, i);
      ghost var calls := CallsFrom(os, i);
      if offset != current {
        nextSample := EmitDueSamples(out, state, scale, nextSample, current, true, calls, records);
        nextSample := EmitDueSamples(out, state, scale, nextSample, offset, false, calls[1..], records);
        current := offset;
      }
      WarningsAt(records, i);
      state.ApplyRecord(records[i], log);
      assert records[..i] + [records[i]] == records[..i + 1];
    }
    assert records[..|records|] == records;
    CallsStep(os, |records|);
    nextSample := EmitDueSamples(out, state, scale, nextSample, current, true, CallsFrom(os, |records|), records);
    NothingPending(nextSample, scale, records);
  }

  lemma EmptyAnalysis(scale: u64)
    requires scale > 0
    ensures Samples([], scale) == [] && Rows([], []) == [] && Warnings([]) == []
  {
  }

  lemma StartPending(rs: seq<TraceRecord>, scale: u64)
    requires scale > 0 && rs != []
    ensures PendingRows(CallsFrom(Offsets(rs), 1), 0, scale, rs) == Rows(Samples(rs, scale), rs)
  {
    hide Rows, RunCalls, CallsFrom, Offset;
  }

  lemma CallsStep(os: seq<u64>, i: nat)
    requires 1 <= i <= |os|
    ensures i == |os| ==> CallsFrom(os, i) == [Call(Past(os[i - 1]), i)]
    ensures i < |os| && os[i] == os[i - 1] ==> CallsFrom(os, i) == CallsFrom(os, i + 1)
    ensures i < |os| && os[i] != os[i - 1] ==>
              && |CallsFrom(os, i)| >= 2
              && CallsFrom(os, i)[0] == Call(Past(os[i - 1]), i)
              && CallsFrom(os, i)[1..][0] == Call(os[i], i)
              && CallsFrom(os, i)[1..][1..] == CallsFrom(os, i + 1)
  {
  }

  lemma NothingPending(next: u64, scale: u64, rs: seq<TraceRecord>)
    requires scale > 0
    ensures PendingRows([], next, scale, rs) == []
  {
  }
}
