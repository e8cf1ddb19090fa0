/**
 The depth histogram of `tracing/nvme-trace/src/analyze.rs`: every submit counts the
 depth it found, globally and on its queue.
 */
module Histogram {
  import opened Records
  import opened Logs
  import opened Analysis
  import QueueDepth

  /** How many submits found the global depth at `d`. */
  function GlobalCount(rs: seq<TraceRecord>, d: nat): (n: nat) {
    if rs == [] then 0
    else
      var before, r := rs[..|rs| - 1], rs[|rs| - 1];
      GlobalCount(before, d) + if r.Submit? && GlobalDepth(before) == d then 1 else 0
  }

  /** How many submits to `q` found its depth at `d`. */
  function QueueCount(rs: seq<TraceRecord>, q: QueueKey, d: nat): (n: nat) {
    if rs == [] then 0
    else
      var before, r := rs[..|rs| - 1], rs[|rs| - 1];
      QueueCount(before, q, d)
      + if r.Submit? && KeyOf(r).Queue() == q && Analysis.QueueDepth(before, q) == d then 1 else 0
  }

  // ---------------------------------------------------------------- what is counted, from the records

  /** A scope is all queues together, or one queue. */
  predicate InScope(r: TraceRecord, scope: Option<QueueKey>) {
    match scope
    case None => true
    case Some(q) => OnQueueOf(r, q.ctrlId, q.qid)
  }

  /** The submits after which no record names their command. */
  function DepthIn(rs: seq<TraceRecord>, scope: Option<QueueKey>): nat {
    match scope
    case None => |OpenSubmits(rs)|
    case Some(q) => |OpenOn(rs, q.ctrlId, q.qid)|
  }

  /** The submits of a scope. */
  function SubmitsIn(rs: seq<TraceRecord>, scope: Option<QueueKey>): (s: set<nat>) {
    set i | 0 <= i < |rs| && rs[i].Submit? && InScope(rs[i], scope)
  }

  /** Those of them that found the depth of the scope at `d`. */
  function FoundBy(rs: seq<TraceRecord>, scope: Option<QueueKey>, d: nat): (s: set<nat>) {
    set i | 0 <= i < |rs| && rs[i].Submit? && InScope(rs[i], scope) && DepthIn(rs[..i], scope) == d
  }

  lemma FoundLast(rs: seq<TraceRecord>, scope: Option<QueueKey>, d: nat, n: nat)
    requires |rs| == n + 1
    ensures var found, all := FoundBy(rs[..n], scope, d), SubmitsIn(rs[..n], scope);
            var mine := rs[n].Submit? && InScope(rs[n], scope);
            && n !in found && n !in all
            && FoundBy(rs, scope, d) == found + (if mine && DepthIn(rs[..n], scope) == d then {n} else {})
            && SubmitsIn(rs, scope) == all + if mine then {n} else {}
  {
    hide DepthIn, InScope;
    forall i | 0 <= i < n
      ensures rs[..n][i] == rs[i] && rs[..n][..i] == rs[..i]
    {
    }
  }

  lemma QueueOfKey(r: TraceRecord, q: QueueKey)
    ensures KeyOf(r).Queue() == q <==> OnQueueOf(r, q.ctrlId, q.qid)
  {
  }

  /** The counts are the numbers of those records. */
  lemma {:induction false} CountsFound(rs: seq<TraceRecord>, q: QueueKey, d: nat)
    ensures GlobalCount(rs, d) == |FoundBy(rs, None, d)|
    ensures QueueCount(rs, q, d) == |FoundBy(rs, Some(q), d)|
    ensures Submits(rs) == |SubmitsIn(rs, None)|
    ensures SubmitsTo(rs, q) == |SubmitsIn(rs, Some(q))|
  {
    if rs != [] {
      hide FoundBy, SubmitsIn, GlobalDepth, Analysis.QueueDepth, OpenSubmits, OpenOn, OnQueueOf, KeyOf;
      var n := |rs| - 1;
      CountsFound(rs[..n], q, d);
      FoundLast(rs, None, d, n);
      FoundLast(rs, Some(q), d, n);
      DepthsExactly(rs[..n], q.ctrlId, q.qid);
      QueueOfKey(rs[n], q);
    }
  }

  function SubmitsTo(rs: seq<TraceRecord>, q: QueueKey): (n: nat) {
    if rs == [] then 0
    else SubmitsTo(rs[..|rs| - 1], q) + if rs[|rs| - 1].Submit? && KeyOf(rs[|rs| - 1]).Queue() == q then 1 else 0
  }

  lemma SnocCounts(rs: seq<TraceRecord>, r: TraceRecord)
    ensures forall d :: GlobalCount(rs + [r], d) == GlobalCount(rs, d)
              + if r.Submit? && GlobalDepth(rs) == d then 1 else 0
    ensures forall q, d :: QueueCount(rs + [r], q, d) == QueueCount(rs, q, d)
              + if r.Submit? && KeyOf(r).Queue() == q && Analysis.QueueDepth(rs, q) == d then 1 else 0
    ensures forall q :: SubmitsTo(rs + [r], q) == SubmitsTo(rs, q)
              + if r.Submit? && KeyOf(r).Queue() == q then 1 else 0
    ensures Submits(rs + [r]) == Submits(rs) + if r.Submit? then 1 else 0
  {
    hide Analysis.QueueDepth, GlobalDepth;
    assert (rs + [r])[..|rs|] == rs;
  }

  // ---------------------------------------------------------------- the loop

  function Get<K>(m: map<K, nat>, k: K): nat {
    if k in m then m[k] else 0
  }

  function Bump<K>(m: map<K, nat>, k: K): map<K, nat> {
    m[k := Get(m, k) + 1]
  }

  /** The map holds exactly the non-zero counts. */
  ghost predicate GlobalMatch(m: map<nat, nat>, rs: seq<TraceRecord>) {
    && (forall d :: Get(m, d) == GlobalCount(rs, d))
    && (forall d <- m :: m[d] > 0)
  }

  ghost predicate QueueMatch(m: map<QueueKey, map<nat, nat>>, rs: seq<TraceRecord>) {
    && (forall q, d :: Get(Own(m, q), d) == QueueCount(rs, q, d))
    && (forall q <- m :: m[q] != map[] && forall d <- m[q] :: m[q][d] > 0)
  }

  ghost predicate SamplesMatch(m: map<QueueKey, nat>, rs: seq<TraceRecord>) {
    && (forall q :: Get(m, q) == SubmitsTo(rs, q))
    && (forall q <- m :: m[q] > 0)
  }

  /** The distribution of one queue. */
  function Own(m: map<QueueKey, map<nat, nat>>, q: QueueKey): map<nat, nat> {
    if q in m then m[q] else map[]
  }

  datatype Counts = Counts(globalDist: map<nat, nat>, queueDist: map<QueueKey, map<nat, nat>>,
                           globalSamples: nat, queueSamples: map<QueueKey, nat>)

  ghost predicate CountsMatch(c: Counts, rs: seq<TraceRecord>) {
    && GlobalMatch(c.globalDist, rs) && QueueMatch(c.queueDist, rs)
    && c.globalSamples == Submits(rs) && SamplesMatch(c.queueSamples, rs)
  }

  // ---------------------------------------------------------------- rows

  /** A line of the output; the percentage is exact here. */
  datatype PercentRow = PercentRow(queue: Option<QueueKey>, depth: nat, count: nat, percent: real)

  function Share(count: nat, total: nat): real {
    if total == 0 then 0.0 else count as real * 100.0 / total as real
  }

  function Least(s: set<nat>): (b: nat)
    requires s != {}
    ensures IsLeast(b, s)
  {
    assert exists b :: IsLeast(b, s) by {
      var b := LeastExists(s);
    }
    LeastUnique(s);
    var b :| b in s && IsLeast(b, s);
    b
  }

  lemma LeastUnique(s: set<nat>)
    ensures forall a, b :: IsLeast(a, s) && IsLeast(b, s) ==> a == b
  {
  }

  /** The lines of one distribution, from the depths in `ds` on, in ascending order. */
  function DistributionRows(queue: Option<QueueKey>, m: map<nat, nat>, total: nat, ds: set<nat>):
      (rows: seq<PercentRow>)
    requires ds <= m.Keys
  {
    if ds == {} then []
    else
      var d := Least(ds);
      [PercentRow(queue, d, m[d], Share(m[d], total))] + DistributionRows(queue, m, total, ds - {d})
  }

  method WriteDistribution(out: Log<PercentRow>, queue: Option<QueueKey>, m: map<nat, nat>, total: nat)
    modifies out
    ensures out.entries == old(out.entries) + DistributionRows(queue, m, total, m.Keys)
  {
    hide IsLeast;
    var rest := m.Keys;
    while rest != {}
      invariant rest <= m.Keys
      invariant out.entries + DistributionRows(queue, m, total, rest)
             == old(out.entries) + DistributionRows(queue, m, total, m.Keys)
      decreases |rest|
    {
      var depth := Least(rest);
      out.Add(PercentRow(queue, depth, m[depth], Share(m[depth], total)));
      rest := rest - {depth};
    }
  }

  /** The lines of one scope: all queues together, or one queue. */
  function ScopeRows(c: Counts, scope: Option<QueueKey>): (rows: seq<PercentRow>) {
    match scope
    case None => DistributionRows(scope, c.globalDist, c.globalSamples, c.globalDist.Keys)
    case Some(q) => DistributionRows(scope, Own(c.queueDist, q), Get(c.queueSamples, q), Own(c.queueDist, q).Keys)
  }

  function QueuesRows(c: Counts, qs: seq<QueueKey>): (rows: seq<PercentRow>) {
    if qs == [] then [] else ScopeRows(c, Some(qs[0])) + QueuesRows(c, qs[1..])
  }

  /** All lines: the global distribution, then that of each queue, in ascending order of the queues. */
  function ReportRows(c: Counts): (rows: seq<PercentRow>) {
    ScopeRows(c, None) + QueuesRows(c, QueueDepth.Ascending(c.queueDist.Keys))
  }

  method WriteReport(out: Log<PercentRow>, c: Counts)
    modifies out
    ensures out.entries == old(out.entries) + ReportRows(c)
  {
    hide DistributionRows, QueueDepth.Ascending, QueueDepth.IsFirst;
    WriteDistribution(out, None, c.globalDist, c.globalSamples);
    var rest := c.queueDist.Keys;
    while rest != {}
      invariant rest <= c.queueDist.Keys
      invariant out.entries + QueuesRows(c, QueueDepth.Ascending(rest)) == old(out.entries) + ReportRows(c)
      decreases |rest|
    {
      var queue := QueueDepth.First(rest);
      QueuesStep(c, rest);
      WriteDistribution(out, Some(queue), c.queueDist[queue], Get(c.queueSamples, queue));
      rest := rest - {queue};
    }
    QueuesEnd(c);
  }

  lemma QueuesStep(c: Counts, rest: set<QueueKey>)
    requires rest != {} && rest <= c.queueDist.Keys
    ensures var q := QueueDepth.First(rest);
            && q in c.queueDist
            && QueuesRows(c, QueueDepth.Ascending(rest)) ==
               ScopeRows(c, Some(q)) + QueuesRows(c, QueueDepth.Ascending(rest - {q}))
  {
    hide DistributionRows;
    assert QueueDepth.Ascending(rest)[1..] == QueueDepth.Ascending(rest - {QueueDepth.First(rest)});
  }

  lemma QueuesEnd(c: Counts)
    ensures QueuesRows(c, QueueDepth.Ascending({})) == []
  {
  }

  /** The ghost results expose the loop's own commands in flight and depths. */
  method AnalyzeQueueDepthPercent(records: seq<TraceRecord>, out: Log<PercentRow>, log: Log<Warning>)
      returns (c: Counts, ghost left: set<CommandKey>, ghost finalDepth: nat, ghost finalDepths: map<QueueKey, nat>)
    modifies out, log
    ensures out.entries == old(out.entries) + ReportRows(c)
    ensures CountsMatch(c, records)
    ensures left == InFlight(records) && finalDepth == GlobalDepth(records)
    ensures QueueDepth.DepthsMatch(finalDepths, records)
    ensures log.entries == old(log.entries) + Warnings(records)
  {
    hide CountsMatch, Warnings, WarningFor, InFlight, QueueDepth.DepthsMatch, GlobalDepth, KnownQueues, ReportRows;
    var inFlight: set<CommandKey> := {};
    var globalDepth: nat := 0;
    var queueDepths: map<QueueKey, nat> := map[];
    c := Counts(map[], map[], 0, map[]);
    EmptyMatch();
    for i := 0 to |records|
      invariant inFlight == InFlight(records[..i]) && globalDepth == GlobalDepth(records[..i])
      invariant QueueDepth.DepthsMatch(queueDepths, records[..i])
      invariant CountsMatch(c, records[..i])
      invariant log.entries == old(log.entries) + Warnings(records[..i])
      invariant out.entries == old(out.entries)
    {
      var record := records[i];
      var key := KeyOf(record);
      var queue := key.Queue();
      ghost var rs := records[..i];
      assert records[..i + 1] == rs + [record];
      Snoc(rs, record);
      SnocGlobalDepth(rs, record);
      QueueDepth.DepthsMatchNext(queueDepths, rs, record);
      WarningCases(rs, record);
      match record {
        case Submit(_) =>
          var queueDepth := Get(queueDepths, queue);
          CountSubmit(c, rs, record, queueDepths);
          c := Counts(Bump(c.globalDist, globalDepth),
                      c.queueDist[queue := Bump(Own(c.queueDist, queue), queueDepth)],
                      c.globalSamples + 1,
                      Bump(c.queueSamples, queue));
          if key in inFlight {
            log.Add(DuplicateSubmit(key));
          } else {
            inFlight := inFlight + {key};
            globalDepth := globalDepth + 1;
            queueDepths := Bump(queueDepths, queue);
          }
        case Complete(_) =>
          CountComplete(c, rs, record);
          if key !in inFlight {
            log.Add(UnmatchedCompletion(key));
          } else {
            inFlight := inFlight - {key};
            globalDepth := SaturatingSub(globalDepth, 1);
            if queue in queueDepths {
              queueDepths := queueDepths[queue := SaturatingSub(queueDepths[queue], 1)];
            }
          }
      }
    }
    assert records[..|records|] == records;
    left, finalDepth, finalDepths := inFlight, globalDepth, queueDepths;
    WriteReport(out, c);
  }

  lemma WarningCases(rs: seq<TraceRecord>, r: TraceRecord)
    ensures WarningFor(rs, r) ==
            if r.Submit? && KeyOf(r) in InFlight(rs) then [DuplicateSubmit(KeyOf(r))]
            else if r.Complete? && KeyOf(r) !in InFlight(rs) then [UnmatchedCompletion(KeyOf(r))]
            else []
  {
    hide InFlight;
  }

  lemma EmptyMatch()
    ensures CountsMatch(Counts(map[], map[], 0, map[]), [])
    ensures InFlight([]) == {} && GlobalDepth([]) == 0 && Warnings([]) == []
    ensures QueueDepth.DepthsMatch(map[], [])
  {
  }

  lemma CountComplete(c: Counts, rs: seq<TraceRecord>, r: TraceRecord)
    requires CountsMatch(c, rs) && r.Complete?
    ensures CountsMatch(c, rs + [r])
  {
    hide GlobalCount, QueueCount, SubmitsTo, Submits, Analysis.QueueDepth, GlobalDepth;
    SnocCounts(rs, r);
  }

  lemma CountSubmit(c: Counts, rs: seq<TraceRecord>, r: TraceRecord, depths: map<QueueKey, nat>)
    requires CountsMatch(c, rs) && r.Submit? && QueueDepth.DepthsMatch(depths, rs)
    ensures var q := KeyOf(r).Queue();
            CountsMatch(Counts(Bump(c.globalDist, GlobalDepth(rs)),
                               c.queueDist[q := Bump(Own(c.queueDist, q), Get(depths, q))],
                               c.globalSamples + 1, Bump(c.queueSamples, q)),
                        rs + [r])
  {
    hide GlobalCount, QueueCount, SubmitsTo, Submits, Analysis.QueueDepth, GlobalDepth, QueueDepth.DepthsMatch,
      GlobalMatch, QueueMatch, SamplesMatch;
    var q := KeyOf(r).Queue();
    SnocCounts(rs, r);
    QueueDepth.MatchesOn(depths, rs, q);
    if q !in KnownQueues(rs) {
      QueueDepth.UnknownIsEmpty(rs, q);
    }
    BumpGlobal(c.globalDist, rs, r);
    BumpQueue(c.queueDist, rs, r);
    BumpSamples(c.queueSamples, rs, r);
  }

  lemma BumpGlobal(m: map<nat, nat>, rs: seq<TraceRecord>, r: TraceRecord)
    requires GlobalMatch(m, rs) && r.Submit?
    ensures GlobalMatch(Bump(m, GlobalDepth(rs)), rs + [r])
  {
    hide GlobalCount, QueueCount, SubmitsTo, Submits, GlobalDepth, Analysis.QueueDepth;
    SnocCounts(rs, r);
  }

  lemma BumpQueue(m: map<QueueKey, map<nat, nat>>, rs: seq<TraceRecord>, r: TraceRecord)
    requires QueueMatch(m, rs) && r.Submit?
    ensures var q := KeyOf(r).Queue();
            QueueMatch(m[q := Bump(Own(m, q), Analysis.QueueDepth(rs, q))], rs + [r])
  {
    hide GlobalCount, QueueCount, SubmitsTo, Submits, GlobalDepth, Analysis.QueueDepth;
    SnocCounts(rs, r);
    var q := KeyOf(r).Queue();
    var d := Analysis.QueueDepth(rs, q);
    var own := Own(m, q);
    var m' := m[q := Bump(own, d)];
    assert d in m'[q];
    forall p, e
      ensures Get(Own(m', p), e) == QueueCount(rs + [r], p, e)
    {
      assert Get(Own(m, p), e) == QueueCount(rs, p, e);
    }
  }

  lemma BumpSamples(m: map<QueueKey, nat>, rs: seq<TraceRecord>, r: TraceRecord)
    requires SamplesMatch(m, rs) && r.Submit?
    ensures SamplesMatch(Bump(m, KeyOf(r).Queue()), rs + [r])
  {
    hide GlobalCount, QueueCount, SubmitsTo, Submits, GlobalDepth, Analysis.QueueDepth;
    SnocCounts(rs, r);
  }

  // ---------------------------------------------------------------- no gaps

  /** Every depth below the current one has been found by some submit. */
  lemma {:induction false} DepthWasCounted(rs: seq<TraceRecord>, d: nat)
    requires d < GlobalDepth(rs)
    ensures GlobalCount(rs, d) > 0
  {
    hide GlobalDepth;
    if rs == [] {
      EmptyMatch();
    } else {
      var before, r := rs[..|rs| - 1], rs[|rs| - 1];
      assert rs == before + [r];
      SnocGlobalDepth(before, r);
      if d < GlobalDepth(before) {
        DepthWasCounted(before, d);
      }
    }
  }

  /** The global histogram has no gaps. */
  lemma {:induction false} GlobalNoGaps(rs: seq<TraceRecord>, d: nat, e: nat)
    requires GlobalCount(rs, d) > 0 && e < d
    ensures GlobalCount(rs, e) > 0
  {
    hide GlobalDepth;
    if rs != [] {
      var before := rs[..|rs| - 1];
      if GlobalCount(before, d) > 0 {
        GlobalNoGaps(before, d, e);
      } else {
        DepthWasCounted(before, e);
      }
    }
  }

  lemma {:induction false} QueueDepthWasCounted(rs: seq<TraceRecord>, q: QueueKey, d: nat)
    requires d < Analysis.QueueDepth(rs, q)
    ensures QueueCount(rs, q, d) > 0
  {
    if rs != [] {
      hide Analysis.QueueDepth;
      var before, r := rs[..|rs| - 1], rs[|rs| - 1];
      assert rs == before + [r];
      SnocQueueDepth(before, r, q);
      if d < Analysis.QueueDepth(before, q) {
        QueueDepthWasCounted(before, q, d);
      }
    }
  }

  /** No queue's histogram has gaps. */
  lemma {:induction false} QueueNoGaps(rs: seq<TraceRecord>, q: QueueKey, d: nat, e: nat)
    requires QueueCount(rs, q, d) > 0 && e < d
    ensures QueueCount(rs, q, e) > 0
  {
    hide Analysis.QueueDepth;
    if rs != [] {
      var before := rs[..|rs| - 1];
      if QueueCount(before, q, d) > 0 {
        QueueNoGaps(before, q, d, e);
      } else {
        QueueDepthWasCounted(before, q, e);
      }
    }
  }

  /** For the maps the analysis returns: the depths present are 0, 1, … up to the largest, in each distribution. */
  lemma DistributionsNoGaps(c: Counts, rs: seq<TraceRecord>)
    requires CountsMatch(c, rs)
    ensures forall d, e: nat :: d in c.globalDist && e < d ==> e in c.globalDist
    ensures forall q, d, e: nat :: q in c.queueDist && d in c.queueDist[q] && e < d ==> e in c.queueDist[q]
  {
    hide GlobalCount, QueueCount, SubmitsTo, Submits, SamplesMatch;
    forall d, e: nat | d in c.globalDist && e < d
      ensures e in c.globalDist
    {
      assert Get(c.globalDist, d) > 0 && Get(c.globalDist, e) == GlobalCount(rs, e);
      GlobalNoGaps(rs, d, e);
    }
    forall q, d, e: nat | q in c.queueDist && d in c.queueDist[q] && e < d
      ensures e in c.queueDist[q]
    {
      assert Get(c.queueDist[q], d) > 0 && Get(c.queueDist[q], e) == QueueCount(rs, q, e);
      QueueNoGaps(rs, q, d, e);
    }
  }

  // ---------------------------------------------------------------- totals

  /** The counts for depths below `bound`. */
  function SumGlobal(rs: seq<TraceRecord>, bound: nat): nat {
    if bound == 0 then 0 else SumGlobal(rs, bound - 1) + GlobalCount(rs, bound - 1)
  }

  function SumQueue(rs: seq<TraceRecord>, q: QueueKey, bound: nat): nat {
    if bound == 0 then 0 else SumQueue(rs, q, bound - 1) + QueueCount(rs, q, bound - 1)
  }

  lemma {:induction false} SumGlobalSnoc(rs: seq<TraceRecord>, r: TraceRecord, bound: nat)
    ensures SumGlobal(rs + [r], bound) == SumGlobal(rs, bound) + if r.Submit? && GlobalDepth(rs) < bound then 1 else 0
  {
    hide GlobalCount, QueueCount, SubmitsTo, GlobalDepth;
    SnocCounts(rs, r);
    if bound > 0 {
      SumGlobalSnoc(rs, r, bound - 1);
    }
  }

  lemma {:induction false} SumQueueSnoc(rs: seq<TraceRecord>, r: TraceRecord, q: QueueKey, bound: nat)
    ensures SumQueue(rs + [r], q, bound) == SumQueue(rs, q, bound)
            + if r.Submit? && KeyOf(r).Queue() == q && Analysis.QueueDepth(rs, q) < bound then 1 else 0
  {
    hide GlobalCount, QueueCount, SubmitsTo, Analysis.QueueDepth;
    SnocCounts(rs, r);
    if bound > 0 {
      SumQueueSnoc(rs, r, q, bound - 1);
    }
  }

  lemma {:induction false} DepthBound(rs: seq<TraceRecord>)
    ensures GlobalDepth(rs) <= |rs|
    ensures forall q :: Analysis.QueueDepth(rs, q) <= |rs|
  {
    if rs != [] {
      hide Analysis.QueueDepth, GlobalDepth;
      var before, r := rs[..|rs| - 1], rs[|rs| - 1];
      assert rs == before + [r];
      DepthBound(before);
      SnocGlobalDepth(before, r);
      forall q
        ensures Analysis.QueueDepth(rs, q) <= |rs|
      {
        SnocQueueDepth(before, r, q);
      }
    }
  }

  /** Every submit is counted once: globally, and on its queue. */
  lemma {:induction false} CountsAddUp(rs: seq<TraceRecord>, q: QueueKey, bound: nat)
    requires bound >= |rs|
    ensures SumGlobal(rs, bound) == Submits(rs)
    ensures SumQueue(rs, q, bound) == SubmitsTo(rs, q)
  {
    if rs == [] {
      EmptySums(q, bound);
    } else {
      hide SumGlobal, SumQueue, Submits, SubmitsTo, GlobalDepth, Analysis.QueueDepth;
      var before, r := rs[..|rs| - 1], rs[|rs| - 1];
      assert rs == before + [r];
      CountsAddUp(before, q, bound);
      SumGlobalSnoc(before, r, bound);
      SumQueueSnoc(before, r, q, bound);
      DepthBound(before);
      SnocCounts(before, r);
    }
  }

  lemma {:induction false} EmptySums(q: QueueKey, bound: nat)
    ensures SumGlobal([], bound) == 0 && SumQueue([], q, bound) == 0
  {
    if bound > 0 {
      EmptySums(q, bound - 1);
    }
  }

  // ---------------------------------------------------------------- what the rows say

  function CountOf(scope: Option<QueueKey>, rs: seq<TraceRecord>, d: nat): nat {
    match scope
    case None => GlobalCount(rs, d)
    case Some(q) => QueueCount(rs, q, d)
  }

  function SamplesOf(scope: Option<QueueKey>, rs: seq<TraceRecord>): nat {
    match scope
    case None => Submits(rs)
    case Some(q) => SubmitsTo(rs, q)
  }

  /** One line for each of the depths 0, 1, …, n-1: how many submits found it, and their share. */
  function Lines(scope: Option<QueueKey>, rs: seq<TraceRecord>, n: nat): (rows: seq<PercentRow>)
    ensures |rows| == n
    ensures forall d :: 0 <= d < n ==>
              rows[d] == PercentRow(scope, d, CountOf(scope, rs, d), Share(CountOf(scope, rs, d), SamplesOf(scope, rs)))
  {
    seq(n, d requires d >= 0 =>
      PercentRow(scope, d, CountOf(scope, rs, d), Share(CountOf(scope, rs, d), SamplesOf(scope, rs))))
  }

  function SumShares(rows: seq<PercentRow>): real {
    if rows == [] then 0.0 else SumShares(rows[..|rows| - 1]) + rows[|rows| - 1].percent
  }

  lemma {:induction false} UpperBound(s: set<nat>) returns (b: nat)
    ensures forall x <- s :: x < b
    decreases |s|
  {
    if s == {} {
      b := 0;
    } else {
      var x :| x in s;
      var below := UpperBound(s - {x});
      b := if below <= x then x + 1 else below;
      forall y <- s
        ensures y < b
      {
        assert y == x || y in s - {x};
      }
    }
  }

  /** A set of depths without gaps is an initial interval. */
  lemma Interval(s: set<nat>) returns (n: nat)
    requires forall d, e: nat :: d in s && e < d ==> e in s
    ensures forall d: nat :: d in s <==> d < n
  {
    n := UpperBound(s);
    while n > 0 && n - 1 !in s
      invariant forall x <- s :: x < n
    {
      n := n - 1;
    }
  }

  lemma RowsFrom(scope: Option<QueueKey>, m: map<nat, nat>, total: nat, ds: set<nat>, from: nat, n: nat)
    requires ds <= m.Keys && forall d: nat :: d in ds <==> from <= d < n
    ensures from < n ==>
              && from in m && (forall d: nat :: d in ds - {from} <==> from + 1 <= d < n)
              && DistributionRows(scope, m, total, ds) ==
                 [PercentRow(scope, from, m[from], Share(m[from], total))]
                 + DistributionRows(scope, m, total, ds - {from})
    ensures from >= n ==> DistributionRows(scope, m, total, ds) == []
  {
    hide Share;
    if from < n {
      assert from in ds;
      assert IsLeast(from, ds);
    } else {
      assert ds == {};
    }
  }

  /** Over the depths `from..n` the lines are in that order. */
  lemma {:induction false} DenseRows(scope: Option<QueueKey>, m: map<nat, nat>, total: nat, ds: set<nat>,
      from: nat, n: nat)
    requires ds <= m.Keys && from <= n && forall d: nat :: d in ds <==> from <= d < n
    ensures var rows := DistributionRows(scope, m, total, ds);
            && |rows| == n - from
            && forall k :: 0 <= k < n - from ==>
                 var d := from + k;
                 d in m && rows[k] == PercentRow(scope, d, m[d], Share(m[d], total))
    decreases n - from
  {
    hide DistributionRows, Share;
    RowsFrom(scope, m, total, ds, from, n);
    if from < n {
      var tail := DistributionRows(scope, m, total, ds - {from});
      DenseRows(scope, m, total, ds - {from}, from + 1, n);
      var rows := DistributionRows(scope, m, total, ds);
      forall k | 0 <= k < n - from
        ensures from + k in m && rows[k] == PercentRow(scope, from + k, m[from + k], Share(m[from + k], total))
      {
        if k > 0 {
          assert rows[k] == tail[k - 1];
        }
      }
    }
  }

  function DistOf(c: Counts, scope: Option<QueueKey>): map<nat, nat> {
    match scope
    case None => c.globalDist
    case Some(q) => Own(c.queueDist, q)
  }

  lemma DistIs(c: Counts, rs: seq<TraceRecord>, scope: Option<QueueKey>)
    requires CountsMatch(c, rs)
    ensures var m := DistOf(c, scope);
            && (forall d :: Get(m, d) == CountOf(scope, rs, d))
            && (forall d :: d in m <==> CountOf(scope, rs, d) > 0)
            && (forall d, e: nat :: d in m && e < d ==> e in m)
            && ScopeRows(c, scope) == DistributionRows(scope, m, SamplesOf(scope, rs), m.Keys)
  {
    hide GlobalCount, QueueCount, Submits, SubmitsTo, DistributionRows;
    DistributionsNoGaps(c, rs);
    forall d
      ensures Get(DistOf(c, scope), d) == CountOf(scope, rs, d)
      ensures d in DistOf(c, scope) <==> CountOf(scope, rs, d) > 0
    {
      if scope.Some? {
        assert Get(Own(c.queueDist, scope.value), d) == QueueCount(rs, scope.value, d);
      } else {
        assert Get(c.globalDist, d) == GlobalCount(rs, d);
      }
    }
  }

  function SumCounts(scope: Option<QueueKey>, rs: seq<TraceRecord>, n: nat): nat {
    if n == 0 then 0 else SumCounts(scope, rs, n - 1) + CountOf(scope, rs, n - 1)
  }

  lemma {:induction false} SumCountsIs(scope: Option<QueueKey>, rs: seq<TraceRecord>, n: nat)
    ensures SumCounts(scope, rs, n) == match scope case None => SumGlobal(rs, n) case Some(q) => SumQueue(rs, q, n)
  {
    hide GlobalCount, QueueCount;
    if n > 0 {
      SumCountsIs(scope, rs, n - 1);
    }
  }

  /** Beyond the last depth found there is nothing to add. */
  lemma {:induction false} SumCountsEnds(scope: Option<QueueKey>, rs: seq<TraceRecord>, n: nat, bound: nat)
    requires n <= bound && forall d: nat :: d >= n ==> CountOf(scope, rs, d) == 0
    ensures SumCounts(scope, rs, bound) == SumCounts(scope, rs, n)
  {
    hide CountOf;
    if n < bound {
      SumCountsEnds(scope, rs, n, bound - 1);
    }
  }

  lemma {:induction false} SharesAdd(scope: Option<QueueKey>, rs: seq<TraceRecord>, n: nat)
    ensures SumShares(Lines(scope, rs, n)) == Share(SumCounts(scope, rs, n), SamplesOf(scope, rs))
  {
    hide CountOf, SamplesOf;
    if n > 0 {
      var rows := Lines(scope, rs, n);
      assert rows[..n - 1] == Lines(scope, rs, n - 1);
      SharesAdd(scope, rs, n - 1);
      SharePlus(SumCounts(scope, rs, n - 1), CountOf(scope, rs, n - 1), SamplesOf(scope, rs));
    }
  }

  lemma SharePlus(a: nat, b: nat, total: nat)
    ensures Share(a, total) + Share(b, total) == Share(a + b, total)
  {
    if total > 0 {
      var t := total as real;
      assert (a + b) as real == a as real + b as real;
      assert (a as real + b as real) * 100.0 / t == a as real * 100.0 / t + b as real * 100.0 / t;
    }
  }

  /**
   What the analysis prints for all queues together, and for each queue: one line for each depth 0, 1, … up
   to the largest any of its submits found, with how many found it and their share; the shares add up to 100.
   */
  lemma ScopeMeaning(c: Counts, rs: seq<TraceRecord>, scope: Option<QueueKey>) returns (n: nat)
    requires CountsMatch(c, rs)
    ensures forall d: nat :: d < n <==> CountOf(scope, rs, d) > 0
    ensures ScopeRows(c, scope) == Lines(scope, rs, n)
    ensures SumShares(ScopeRows(c, scope)) == if SamplesOf(scope, rs) == 0 then 0.0 else 100.0
  {
    hide CountsMatch, DistributionRows, ScopeRows, SumShares, CountOf, SamplesOf, SumCounts;
    DistIs(c, rs, scope);
    var m := DistOf(c, scope);
    n := Interval(m.Keys);
    DenseRows(scope, m, SamplesOf(scope, rs), m.Keys, 0, n);
    forall d | 0 <= d < n
      ensures ScopeRows(c, scope)[d] == Lines(scope, rs, n)[d]
    {
      assert d in m.Keys;
      assert Get(m, d) == CountOf(scope, rs, d);
    }
    SharesAdd(scope, rs, n);
    AllCounted(scope, rs, n);
  }

  lemma WholeShare(total: nat)
    ensures Share(total, total) == if total == 0 then 0.0 else 100.0
  {
    if total > 0 {
      var t := total as real;
      assert t * 100.0 / t == 100.0;
    }
  }

  lemma AllCounted(scope: Option<QueueKey>, rs: seq<TraceRecord>, n: nat)
    requires forall d: nat :: d >= n ==> CountOf(scope, rs, d) == 0
    ensures SumCounts(scope, rs, n) == SamplesOf(scope, rs)
    ensures Share(SamplesOf(scope, rs), SamplesOf(scope, rs)) == if SamplesOf(scope, rs) == 0 then 0.0 else 100.0
  {
    hide CountOf, SumGlobal, SumQueue, SumCounts, Submits, SubmitsTo;
    var bound := if n < |rs| then |rs| else n;
    var q := if scope.Some? then scope.value else QueueKey(0, 0);
    SumCountsEnds(scope, rs, n, bound);
    SumCountsIs(scope, rs, bound);
    CountsAddUp(rs, q, bound);
    WholeShare(SamplesOf(scope, rs));
  }

  /** The queues that get lines are those submitted to. */
  lemma QueuesCounted(c: Counts, rs: seq<TraceRecord>)
    requires CountsMatch(c, rs)
    ensures c.queueDist.Keys == KnownQueues(rs)
  {
    hide QueueCount, SubmitsTo, Submits, GlobalCount;
    forall q
      ensures q in c.queueDist <==> q in KnownQueues(rs)
    {
      if q in c.queueDist {
        var d :| d in c.queueDist[q];
        assert Get(Own(c.queueDist, q), d) == QueueCount(rs, q, d) > 0;
        CountedKnown(rs, q, d);
      }
      if q in KnownQueues(rs) {
        var d := KnownCounted(rs, q);
        assert Get(Own(c.queueDist, q), d) == QueueCount(rs, q, d) > 0;
      }
    }
  }

  lemma {:induction false} CountedKnown(rs: seq<TraceRecord>, q: QueueKey, d: nat)
    requires QueueCount(rs, q, d) > 0
    ensures q in KnownQueues(rs)
  {
    hide Analysis.QueueDepth;
    var before, r := rs[..|rs| - 1], rs[|rs| - 1];
    assert rs == before + [r];
    SnocKnown(before, r);
    if QueueCount(before, q, d) > 0 {
      CountedKnown(before, q, d);
    }
  }

  lemma {:induction false} KnownCounted(rs: seq<TraceRecord>, q: QueueKey) returns (d: nat)
    requires q in KnownQueues(rs)
    ensures QueueCount(rs, q, d) > 0
  {
    hide Analysis.QueueDepth;
    var before, r := rs[..|rs| - 1], rs[|rs| - 1];
    assert rs == before + [r];
    SnocKnown(before, r);
    if q in KnownQueues(before) {
      d := KnownCounted(before, q);
    } else {
      d := Analysis.QueueDepth(before, q);
    }
  }

  // ---------------------------------------------------------------- the whole report

  /** All queues together come first, then the queues by controller and queue id; within a scope depths ascend. */
  predicate RowBefore(a: PercentRow, b: PercentRow) {
    || (a.queue == b.queue && a.depth < b.depth)
    || (b.queue.Some?
        && (a.queue.Some? ==>
              || a.queue.value.ctrlId < b.queue.value.ctrlId
              || (a.queue.value.ctrlId == b.queue.value.ctrlId && a.queue.value.qid < b.queue.value.qid)))
  }

  ghost predicate RowsAscend(rows: seq<PercentRow>) {
    forall i, j :: 0 <= i < j < |rows| ==> RowBefore(rows[i], rows[j])
  }

  /** The row shows how many submits of its scope found its depth, at least one, and their percentage of the scope's
      submits. */
  ghost predicate RowShows(row: PercentRow, rs: seq<TraceRecord>) {
    var found, all := |FoundBy(rs, row.queue, row.depth)|, |SubmitsIn(rs, row.queue)|;
    found > 0 && row.count == found && row.percent * all as real == 100.0 * found as real
  }

  lemma ShareMeans(count: nat, total: nat, p: real)
    requires 0 < total
    ensures p == Share(count, total) <==> p * total as real == 100.0 * count as real
  {
    var t := total as real;
    if p * t == 100.0 * count as real {
      assert p == p * t / t;
    }
  }

  lemma FoundSome(rs: seq<TraceRecord>, scope: Option<QueueKey>, d: nat)
    requires |FoundBy(rs, scope, d)| > 0
    ensures |SubmitsIn(rs, scope)| > 0
    ensures scope.Some? ==> SubmittedTo(rs, scope.value.ctrlId, scope.value.qid)
  {
    hide DepthIn, OnQueueOf;
    var i :| i in FoundBy(rs, scope, d);
    assert i in SubmitsIn(rs, scope);
  }

  lemma ScopeCounts(scope: Option<QueueKey>, rs: seq<TraceRecord>, d: nat)
    ensures CountOf(scope, rs, d) == |FoundBy(rs, scope, d)| && SamplesOf(scope, rs) == |SubmitsIn(rs, scope)|
  {
    hide GlobalCount, QueueCount, Submits, SubmitsTo, FoundBy, SubmitsIn;
    CountsFound(rs, if scope.Some? then scope.value else QueueKey(0, 0), d);
  }

  lemma LineShows(scope: Option<QueueKey>, rs: seq<TraceRecord>, row: PercentRow)
    requires row.queue == scope
    ensures RowShows(row, rs) <==>
            && row.count == CountOf(scope, rs, row.depth) > 0
            && row.percent == Share(CountOf(scope, rs, row.depth), SamplesOf(scope, rs))
    ensures RowShows(row, rs) && scope.Some? ==> SubmittedTo(rs, scope.value.ctrlId, scope.value.qid)
  {
    hide CountOf, SamplesOf, Share, FoundBy, SubmitsIn, SubmittedTo;
    ScopeCounts(scope, rs, row.depth);
    if |FoundBy(rs, scope, row.depth)| > 0 {
      FoundSome(rs, scope, row.depth);
      ShareMeans(CountOf(scope, rs, row.depth), SamplesOf(scope, rs), row.percent);
    }
  }

  lemma ScopeRowsMean(c: Counts, rs: seq<TraceRecord>, scope: Option<QueueKey>)
    requires CountsMatch(c, rs)
    ensures RowsAscend(ScopeRows(c, scope))
    ensures forall row :: row in ScopeRows(c, scope) <==> row.queue == scope && RowShows(row, rs)
  {
    hide CountsMatch, ScopeRows, CountOf, SamplesOf, RowShows, SumShares, Share;
    var n := ScopeMeaning(c, rs, scope);
    var rows := Lines(scope, rs, n);
    forall row: PercentRow
      ensures row in rows <==> row.queue == scope && RowShows(row, rs)
    {
      if row.queue == scope {
        LineShows(scope, rs, row);
        if RowShows(row, rs) {
          assert rows[row.depth] == row;
        }
      }
    }
  }

  lemma {:induction false} QueuesRowsMean(c: Counts, rs: seq<TraceRecord>, qs: seq<QueueKey>)
    requires CountsMatch(c, rs) && forall i, j :: 0 <= i < j < |qs| ==> QueueDepth.Before(qs[i], qs[j])
    ensures RowsAscend(QueuesRows(c, qs))
    ensures forall row :: row in QueuesRows(c, qs) <==> row.queue.Some? && row.queue.value in qs && RowShows(row, rs)
    decreases |qs|
  {
    hide CountsMatch, ScopeRows, RowShows;
    if qs != [] {
      var first, tail := ScopeRows(c, Some(qs[0])), QueuesRows(c, qs[1..]);
      ScopeRowsMean(c, rs, Some(qs[0]));
      QueuesRowsMean(c, rs, qs[1..]);
      assert qs == [qs[0]] + qs[1..];
      forall q <- qs[1..]
        ensures QueueDepth.Before(qs[0], q)
      {
        var i :| 0 <= i < |qs[1..]| && qs[1..][i] == q;
        assert qs[i + 1] == q;
      }
      AscendTogether(first, tail);
    }
  }

  lemma AscendTogether(a: seq<PercentRow>, b: seq<PercentRow>)
    requires RowsAscend(a) && RowsAscend(b) && forall x, y :: x in a && y in b ==> RowBefore(x, y)
    ensures RowsAscend(a + b)
  {
    hide RowBefore;
    forall i, j | 0 <= i < j < |a + b|
      ensures RowBefore((a + b)[i], (a + b)[j])
    {
      assert i < |a| ==> a[i] in a;
      assert j >= |a| ==> b[j - |a|] in b;
    }
  }

  /** The report, in full: in ascending order, exactly the rows that show a count. */
  lemma ReportExactly(c: Counts, rs: seq<TraceRecord>)
    requires CountsMatch(c, rs)
    ensures RowsAscend(ReportRows(c))
    ensures forall row :: row in ReportRows(c) <==> RowShows(row, rs)
  {
    hide CountsMatch, ScopeRows, QueuesRows, RowShows, KnownQueues, QueueDepth.Ascending;
    var qs := QueueDepth.Ascending(c.queueDist.Keys);
    QueueDepth.AscendingLists(c.queueDist.Keys);
    QueuesCounted(c, rs);
    ScopeRowsMean(c, rs, None);
    QueuesRowsMean(c, rs, qs);
    AscendTogether(ScopeRows(c, None), QueuesRows(c, qs));
    forall row: PercentRow
      ensures row in ReportRows(c) <==> RowShows(row, rs)
    {
      if row.queue.Some? {
        LineShows(row.queue, rs, row);
        KnownExactly(rs, row.queue.value.ctrlId, row.queue.value.qid);
      }
    }
  }
}
