/**
 The k-way merge of `splice_streams_with_names` in `tracing/nvme-trace/src/lib.rs`,
 and what its output is: an interleaving of the inputs, in order on the domains
 where the record order is transitive, and there independent of the input order.
 */
module Splice {
  import opened Bytes
  import opened Records
  import opened Reader
  import opened Order

  // ---------------------------------------------------------------- merge runs

  /** What each input still has to deliver. */
  type Remaining = seq<seq<RawRecord>>

  function HeadItem(names: seq<Name>, rem: Remaining, i: nat): HeapItem
    requires i < |rem| == |names| && rem[i] != []
  {
    HeapItem(names[i], i, rem[i][0])
  }

  /** `item` is the head of its input, and comes no later than the head of any other input. */
  ghost predicate Least(names: seq<Name>, rem: Remaining, item: HeapItem)
    requires |rem| == |names|
  {
    forall j :: 0 <= j < |rem| && rem[j] != [] ==> ItemLe(item, HeadItem(names, rem, j))
  }

  predicate Pops(names: seq<Name>, rem: Remaining, item: HeapItem) {
    && |rem| == |names| && item.inputIndex < |rem| && rem[item.inputIndex] != []
    && item == HeadItem(names, rem, item.inputIndex)
  }

  function After(rem: Remaining, i: nat): (r: Remaining)
    requires i < |rem| && rem[i] != []
    ensures |r| == |rem|
  {
    rem[i := rem[i][1..]]
  }

  /** The trace takes heads off the inputs, from `rem` to `end`; if `greedy`, always a least head. */
  ghost predicate Run(names: seq<Name>, rem: Remaining, trace: seq<HeapItem>, end: Remaining, greedy: bool)
    decreases |trace|
  {
    if trace == [] then |rem| == |names| && rem == end
    else
      && Pops(names, rem, trace[0])
      && (greedy ==> Least(names, rem, trace[0]))
      && Run(names, After(rem, trace[0].inputIndex), trace[1..], end, greedy)
  }

  predicate AllEmpty(rem: Remaining) {
    forall i :: 0 <= i < |rem| ==> rem[i] == []
  }

  ghost predicate FullRun(names: seq<Name>, inputs: Remaining, trace: seq<HeapItem>, greedy: bool) {
    exists end :: AllEmpty(end) && Run(names, inputs, trace, end, greedy)
  }

  function TraceBytes(trace: seq<HeapItem>): (b: seq<byte>) {
    if trace == [] then [] else trace[0].record.bytes + TraceBytes(trace[1..])
  }

  lemma {:induction false} RunSnoc(names: seq<Name>, rem: Remaining, trace: seq<HeapItem>, mid: Remaining,
                                   item: HeapItem, greedy: bool)
    requires Run(names, rem, trace, mid, greedy) && Pops(names, mid, item) && (greedy ==> Least(names, mid, item))
    ensures Run(names, rem, trace + [item], After(mid, item.inputIndex), greedy)
    decreases |trace|
  {
    hide Pops, Least;
    var t := trace + [item];
    if trace == [] {
      assert t[1..] == [];
      PopsShape(names, mid, item);
    } else {
      assert t[1..] == trace[1..] + [item];
      PopsShape(names, rem, trace[0]);
      RunSnoc(names, After(rem, trace[0].inputIndex), trace[1..], mid, item, greedy);
    }
  }

  lemma PopsShape(names: seq<Name>, rem: Remaining, item: HeapItem)
    requires Pops(names, rem, item)
    ensures |rem| == |names| && item.inputIndex < |rem| && rem[item.inputIndex] != []
  {
  }

  lemma {:induction false} TraceBytesSnoc(trace: seq<HeapItem>, item: HeapItem)
    ensures TraceBytes(trace + [item]) == TraceBytes(trace) + item.record.bytes
  {
    if trace == [] {
      assert (trace + [item])[1..] == [];
    } else {
      assert (trace + [item])[1..] == trace[1..] + [item];
      TraceBytesSnoc(trace[1..], item);
    }
  }

  // ---------------------------------------------------------------- conservation

  /** The records of the trace that came from input `i`, in order. */
  function Project(trace: seq<HeapItem>, i: nat): (rs: seq<RawRecord>) {
    if trace == [] then []
    else (if trace[0].inputIndex == i then [trace[0].record] else []) + Project(trace[1..], i)
  }

  /** Each input is what the trace took from it, followed by what it has left. */
  lemma {:induction false} RunConserves(names: seq<Name>, rem: Remaining, trace: seq<HeapItem>, end: Remaining,
                                        greedy: bool, i: nat)
    requires Run(names, rem, trace, end, greedy) && i < |rem|
    ensures |end| == |rem| && rem[i] == Project(trace, i) + end[i]
    decreases |trace|
  {
    hide Least;
    if trace != [] {
      RunConserves(names, After(rem, trace[0].inputIndex), trace[1..], end, greedy, i);
    }
  }

  function TotalLength(rem: Remaining): nat {
    if rem == [] then 0 else |ConcatBytes(rem[0])| + TotalLength(rem[1..])
  }

  lemma {:induction false} TotalAfter(rem: Remaining, i: nat)
    requires i < |rem| && rem[i] != []
    ensures TotalLength(rem) == |rem[i][0].bytes| + TotalLength(After(rem, i))
  {
    if i > 0 {
      TotalAfter(rem[1..], i - 1);
      assert After(rem, i)[1..] == After(rem[1..], i - 1);
    } else {
      assert After(rem, i)[1..] == rem[1..];
    }
  }

  lemma {:induction false} TotalEmpty(rem: Remaining)
    requires AllEmpty(rem)
    ensures TotalLength(rem) == 0
  {
    if rem != [] {
      TotalEmpty(rem[1..]);
    }
  }

  lemma {:induction false} RunLength(names: seq<Name>, rem: Remaining, trace: seq<HeapItem>, end: Remaining,
                                     greedy: bool)
    requires Run(names, rem, trace, end, greedy) && AllEmpty(end)
    ensures |TraceBytes(trace)| == TotalLength(rem)
    decreases |trace|
  {
    hide Least, TotalLength;
    if trace == [] {
      TotalEmpty(rem);
    } else {
      TotalAfter(rem, trace[0].inputIndex);
      RunLength(names, After(rem, trace[0].inputIndex), trace[1..], end, greedy);
    }
  }

  /** The inputs of a splice: what each stream decodes to. */
  function Inputs(streams: seq<seq<byte>>): (r: Remaining)
    ensures |r| == |streams|
    ensures forall i :: 0 <= i < |r| ==> r[i] == Decode(streams[i], 0).records
  {
    seq(|streams|, i requires 0 <= i < |streams| => Decode(streams[i], 0).records)
  }

  predicate AllClean(streams: seq<seq<byte>>) {
    forall s <- streams :: Clean(s)
  }

  function SumLengths(streams: seq<seq<byte>>): nat {
    if streams == [] then 0 else |streams[0]| + SumLengths(streams[1..])
  }

  lemma {:induction false} CleanTotal(streams: seq<seq<byte>>)
    requires AllClean(streams)
    ensures TotalLength(Inputs(streams)) == SumLengths(streams)
  {
    hide Decode;
    if streams != [] {
      assert Clean(streams[0]);
      DecodeFraming(streams[0], 0);
      assert Inputs(streams)[1..] == Inputs(streams[1..]);
      CleanTotal(streams[1..]);
    }
  }

  /** Conservation, with no assumption on order: the output of a full merge of clean streams is an
      interleaving of their records. Projected to any input it is that input's bytes, and its
      length is the sum of the input lengths. */
  lemma SpliceConserves(streams: seq<seq<byte>>, names: seq<Name>, trace: seq<HeapItem>, greedy: bool)
    requires AllClean(streams) && FullRun(names, Inputs(streams), trace, greedy)
    ensures forall i :: 0 <= i < |streams| ==>
              && Project(trace, i) == Decode(streams[i], 0).records
              && ConcatBytes(Project(trace, i)) == streams[i]
    ensures |TraceBytes(trace)| == SumLengths(streams)
    ensures forall item <- trace :: item.inputIndex < |streams|
  {
    hide Decode, Run, Least, TotalLength;
    var end :| AllEmpty(end) && Run(names, Inputs(streams), trace, end, greedy);
    forall i | 0 <= i < |streams|
      ensures Project(trace, i) == Decode(streams[i], 0).records && ConcatBytes(Project(trace, i)) == streams[i]
    {
      RunConserves(names, Inputs(streams), trace, end, greedy, i);
      assert Project(trace, i) + [] == Project(trace, i);
      assert Clean(streams[i]);
      DecodeFraming(streams[i], 0);
    }
    RunLength(names, Inputs(streams), trace, end, greedy);
    CleanTotal(streams);
    RunIndices(names, Inputs(streams), trace, end, greedy);
  }

  lemma {:induction false} RunIndices(names: seq<Name>, rem: Remaining, trace: seq<HeapItem>, end: Remaining,
                                      greedy: bool)
    requires Run(names, rem, trace, end, greedy)
    ensures forall item <- trace :: item.inputIndex < |rem| && item.record in rem[item.inputIndex]
    decreases |trace|
  {
    hide Least;
    if trace != [] {
      RunIndices(names, After(rem, trace[0].inputIndex), trace[1..], end, greedy);
      forall item <- trace
        ensures item.inputIndex < |rem| && item.record in rem[item.inputIndex]
      {
        if item != trace[0] {
          assert item in trace[1..];
        }
      }
    }
  }

  // ---------------------------------------------------------------- which record comes next

  /** How many records of input `j` the first `k` steps took. */
  function Taken(trace: seq<HeapItem>, k: nat, j: nat): nat
    requires k <= |trace|
  {
    |Project(trace[..k], j)|
  }

  lemma TakenStep(trace: seq<HeapItem>, k: nat, j: nat)
    requires k <= |trace|
    ensures Taken(trace, 0, j) == 0
    ensures k > 0 ==> Taken(trace, k, j) == Taken(trace[1..], k - 1, j) + if trace[0].inputIndex == j then 1 else 0
  {
    if k > 0 {
      assert trace[..k][1..] == trace[1..][..k - 1];
    }
  }

  /**
   Step `k` of a greedy merge takes the next record of its input, and no input has a record waiting that is to
   come before it: an earlier header, or with neither header earlier a smaller name, or with the same name a
   smaller offset.
   */
  lemma {:induction false} GreedyPicksFirst(names: seq<Name>, rem: Remaining, trace: seq<HeapItem>, end: Remaining,
                                            k: nat)
    requires Run(names, rem, trace, end, true) && k < |trace| && |rem| == |names|
    ensures var i := trace[k].inputIndex;
            && i < |rem| && Taken(trace, k, i) < |rem[i]|
            && trace[k] == HeapItem(names[i], i, rem[i][Taken(trace, k, i)])
    ensures forall j :: 0 <= j < |rem| && Taken(trace, k, j) < |rem[j]| ==>
              !ItemBefore(HeapItem(names[j], j, rem[j][Taken(trace, k, j)]), trace[k])
    decreases k
  {
    hide ItemBefore, ItemLe, Taken;
    if k == 0 {
      forall j: nat
        ensures Taken(trace, 0, j) == 0
      {
        TakenStep(trace, 0, j);
      }
      forall j | 0 <= j < |rem| && 0 < |rem[j]|
        ensures !ItemBefore(HeapItem(names[j], j, rem[j][0]), trace[0])
      {
        assert ItemLe(trace[0], HeadItem(names, rem, j));
        ItemOrderMeans(trace[0], HeadItem(names, rem, j));
      }
    } else {
      var x := trace[0].inputIndex;
      var next := After(rem, x);
      GreedyPicksFirst(names, next, trace[1..], end, k - 1);
      forall j: nat | j < |rem|
        ensures Taken(trace, k, j) < |rem[j]| <==> Taken(trace[1..], k - 1, j) < |next[j]|
        ensures Taken(trace, k, j) < |rem[j]| ==> rem[j][Taken(trace, k, j)] == next[j][Taken(trace[1..], k - 1, j)]
      {
        TakenStep(trace, k, j);
      }
    }
  }

  // ---------------------------------------------------------------- order of the output

  ghost predicate SortedBy(le: (Header, Header) -> bool, rs: seq<RawRecord>) {
    forall i, j :: 0 <= i < j < |rs| ==> le(rs[i].header, rs[j].header)
  }

  ghost predicate TraceSortedBy(le: (Header, Header) -> bool, trace: seq<HeapItem>) {
    forall i, j :: 0 <= i < j < |trace| ==> le(trace[i].record.header, trace[j].record.header)
  }

  /** `le` is transitive on `s` and no finer than the record order there. */
  ghost predicate Coarsens(le: (Header, Header) -> bool, s: set<Header>) {
    && (forall a, b, c :: a in s && b in s && c in s && le(a, b) && le(b, c) ==> le(a, c))
    && (forall a, b :: a in s && b in s && Le(a, b) ==> le(a, b))
  }

  ghost predicate HeadersIn(rem: Remaining, s: set<Header>) {
    forall i, k :: 0 <= i < |rem| && 0 <= k < |rem[i]| ==> rem[i][k].header in s
  }

  ghost predicate InputsSortedBy(le: (Header, Header) -> bool, rem: Remaining) {
    forall i :: 0 <= i < |rem| ==> SortedBy(le, rem[i])
  }

  lemma ItemLeHeaders(a: HeapItem, b: HeapItem)
    requires ItemLe(a, b)
    ensures Le(a.record.header, b.record.header)
  {
    hide RecordOrder, NameOrder;
  }

  /** A least head comes no later than anything any input still has. */
  lemma LeastBelowAll(names: seq<Name>, rem: Remaining, item: HeapItem, le: (Header, Header) -> bool, s: set<Header>)
    requires Pops(names, rem, item) && Least(names, rem, item)
    requires Coarsens(le, s) && HeadersIn(rem, s) && InputsSortedBy(le, rem)
    ensures forall i, k :: 0 <= i < |rem| && 0 <= k < |rem[i]| ==> le(item.record.header, rem[i][k].header)
  {
    hide ItemLe, Le;
    forall i, k | 0 <= i < |rem| && 0 <= k < |rem[i]|
      ensures le(item.record.header, rem[i][k].header)
    {
      ItemLeHeaders(item, HeadItem(names, rem, i));
      assert rem[item.inputIndex][0].header in s && rem[i][0].header in s && rem[i][k].header in s;
      assert le(item.record.header, rem[i][0].header);
      if k > 0 {
        assert SortedBy(le, rem[i]);
        assert le(rem[i][0].header, rem[i][k].header);
      }
    }
  }

  lemma AfterKeeps(rem: Remaining, i: nat, le: (Header, Header) -> bool, s: set<Header>)
    requires i < |rem| && rem[i] != [] && HeadersIn(rem, s) && InputsSortedBy(le, rem)
    ensures HeadersIn(After(rem, i), s) && InputsSortedBy(le, After(rem, i))
  {
    var next: Remaining := After(rem, i);
    forall j: nat, k: nat | j < |next| && k < |next[j]|
      ensures next[j][k].header in s
    {
      assert next[j][k] == if j == i then rem[i][k + 1] else rem[j][k];
    }
    forall j | 0 <= j < |next|
      ensures SortedBy(le, next[j])
    {
      assert SortedBy(le, rem[j]);
    }
  }

  /** A greedy merge of sorted inputs is sorted, for every relation the record order refines. */
  lemma {:induction false} MergeSorted(names: seq<Name>, rem: Remaining, trace: seq<HeapItem>, end: Remaining,
                                       le: (Header, Header) -> bool, s: set<Header>)
    requires Run(names, rem, trace, end, true)
    requires Coarsens(le, s) && HeadersIn(rem, s) && InputsSortedBy(le, rem)
    ensures TraceSortedBy(le, trace)
    decreases |trace|
  {
    hide Least, Coarsens, HeadersIn, InputsSortedBy, Pops;
    if trace != [] {
      PopsShape(names, rem, trace[0]);
      var next := After(rem, trace[0].inputIndex);
      LeastBelowAll(names, rem, trace[0], le, s);
      AfterKeeps(rem, trace[0].inputIndex, le, s);
      MergeSorted(names, next, trace[1..], end, le, s);
      RunIndices(names, next, trace[1..], end, true);
      forall i, j | 0 <= i < j < |trace|
        ensures le(trace[i].record.header, trace[j].record.header)
      {
        var item := trace[j];
        assert item == trace[1..][j - 1] && item in trace[1..];
        var k :| 0 <= k < |next[item.inputIndex]| && next[item.inputIndex][k] == item.record;
        if i == 0 {
          var x := item.inputIndex;
          assert item.record == if x == trace[0].inputIndex then rem[x][k + 1] else rem[x][k];
        } else {
          assert trace[1..][i - 1] == trace[i];
        }
      }
    }
  }

  predicate TimeLe(a: Header, b: Header) {
    a.timestampNs <= b.timestampNs
  }

  function AllHeaders(rem: Remaining): (s: set<Header>)
    ensures HeadersIn(rem, s)
    ensures forall h <- s :: exists i, k :: 0 <= i < |rem| && 0 <= k < |rem[i]| && rem[i][k].header == h
  {
    set i, k | 0 <= i < |rem| && 0 <= k < |rem[i]| :: rem[i][k].header
  }

  /** What a sorted trace took from one input is sorted. */
  lemma {:induction false} SortedProjects(le: (Header, Header) -> bool, trace: seq<HeapItem>, i: nat)
    requires TraceSortedBy(le, trace)
    ensures SortedBy(le, Project(trace, i))
    ensures forall raw <- Project(trace, i) :: exists item <- trace :: item.record == raw
  {
    if trace != [] {
      SortedProjects(le, trace[1..], i);
      forall raw <- Project(trace[1..], i)
        ensures le(trace[0].record.header, raw.header)
      {
        var item :| item in trace[1..] && item.record == raw;
        var j :| 0 <= j < |trace[1..]| && trace[1..][j] == item;
        assert trace[1 + j] == item;
      }
    }
  }

  /** So a full merge can only be sorted if every input is. */
  lemma SortedNeedsSorted(names: seq<Name>, inputs: Remaining, trace: seq<HeapItem>, le: (Header, Header) -> bool)
    requires FullRun(names, inputs, trace, true) && TraceSortedBy(le, trace)
    ensures InputsSortedBy(le, inputs)
  {
    hide Run, TraceSortedBy, SortedBy, Project;
    var end :| AllEmpty(end) && Run(names, inputs, trace, end, true);
    forall i | 0 <= i < |inputs|
      ensures SortedBy(le, inputs[i])
    {
      RunConserves(names, inputs, trace, end, true, i);
      assert Project(trace, i) + [] == Project(trace, i);
      SortedProjects(le, trace, i);
    }
  }

  /** Captures without sequence numbers: the output is in time order exactly when every input is, and then
      there are no warnings. */
  lemma SpliceTimeSorted(names: seq<Name>, inputs: Remaining, trace: seq<HeapItem>)
    requires FullRun(names, inputs, trace, true) && NoSeqs(AllHeaders(inputs))
    ensures TraceSortedBy(TimeLe, trace) <==> InputsSortedBy(TimeLe, inputs)
    ensures InputsSortedBy(TimeLe, inputs) ==> Warnings(trace) == []
  {
    hide Run, AllHeaders, TraceSortedBy, InputsSortedBy, Warnings;
    if InputsSortedBy(TimeLe, inputs) {
      var end :| AllEmpty(end) && Run(names, inputs, trace, end, true);
      MergeSorted(names, inputs, trace, end, TimeLe, AllHeaders(inputs));
      SortedNoWarnings(trace);
    }
    if TraceSortedBy(TimeLe, trace) {
      SortedNeedsSorted(names, inputs, trace, TimeLe);
    }
  }

  /** On every domain where the record order is transitive, the output is sorted exactly when every input is. */
  lemma SpliceRecordSorted(names: seq<Name>, inputs: Remaining, trace: seq<HeapItem>)
    requires FullRun(names, inputs, trace, true) && TransitiveOn(AllHeaders(inputs))
    ensures TraceSortedBy(Le, trace) <==> InputsSortedBy(Le, inputs)
  {
    hide Run, Le, AllHeaders, TraceSortedBy, InputsSortedBy;
    if InputsSortedBy(Le, inputs) {
      var end :| AllEmpty(end) && Run(names, inputs, trace, end, true);
      MergeSorted(names, inputs, trace, end, Le, AllHeaders(inputs));
    }
    if TraceSortedBy(Le, trace) {
      SortedNeedsSorted(names, inputs, trace, Le);
    }
  }

  // ---------------------------------------------------------------- warnings

  datatype Warning = BackInTime(ctrlId: byte, previous: u64, current: u64, source: Name, offset: nat)

  /** The most recent timestamp of a controller in the trace. */
  function LastTime(trace: seq<HeapItem>, ctrlId: byte): Option<u64> {
    if trace == [] then None
    else
      var h := trace[|trace| - 1].record.header;
      if h.ctrlId == ctrlId then Some(h.timestampNs) else LastTime(trace[..|trace| - 1], ctrlId)
  }

  function WarningFor(before: seq<HeapItem>, item: HeapItem): seq<Warning> {
    var h := item.record.header;
    var last := LastTime(before, h.ctrlId);
    if last.Some? && h.timestampNs < last.value then
      [BackInTime(h.ctrlId, last.value, h.timestampNs, item.sourceName, item.record.offset)]
    else []
  }

  function Warnings(trace: seq<HeapItem>): seq<Warning> {
    if trace == [] then []
    else Warnings(trace[..|trace| - 1]) + WarningFor(trace[..|trace| - 1], trace[|trace| - 1])
  }

  lemma WarningsSnoc(trace: seq<HeapItem>, item: HeapItem)
    ensures Warnings(trace + [item]) == Warnings(trace) + WarningFor(trace, item)
    ensures forall c: byte :: LastTime(trace + [item], c) ==
              if item.record.header.ctrlId == c then Some(item.record.header.timestampNs) else LastTime(trace, c)
  {
    assert (trace + [item])[..|trace|] == trace;
  }

  /** Position `j` is the last one of controller `c`. */
  predicate LatestOf(trace: seq<HeapItem>, j: nat, c: byte)
    requires j < |trace|
  {
    && trace[j].record.header.ctrlId == c
    && forall m :: j < m < |trace| ==> trace[m].record.header.ctrlId != c
  }

  /** Record `k` is earlier than the record of the same controller output last before it. */
  ghost predicate GoesBack(trace: seq<HeapItem>, k: nat)
    requires k < |trace|
  {
    exists j :: 0 <= j < k
      && LatestOf(trace[..k], j, trace[k].record.header.ctrlId)
      && trace[k].record.header.timestampNs < trace[j].record.header.timestampNs
  }

  lemma {:induction false} LastTimeMeans(trace: seq<HeapItem>, c: byte)
    ensures match LastTime(trace, c)
            case None => forall m :: 0 <= m < |trace| ==> trace[m].record.header.ctrlId != c
            case Some(t) =>
              (exists j :: 0 <= j < |trace| && LatestOf(trace, j, c) && trace[j].record.header.timestampNs == t)
  {
    if trace != [] {
      var before := trace[..|trace| - 1];
      LastTimeMeans(before, c);
      if trace[|trace| - 1].record.header.ctrlId == c {
        assert LatestOf(trace, |trace| - 1, c);
      } else if LastTime(before, c).Some? {
        var j :| 0 <= j < |before| && LatestOf(before, j, c)
          && before[j].record.header.timestampNs == LastTime(before, c).value;
        assert LatestOf(trace, j, c);
      }
    }
  }

  /** A warning is raised for an output record exactly when it goes back in time within its controller; it names
      the controller, the two timestamps, and the source and offset of the record. */
  lemma WarnsExactly(trace: seq<HeapItem>, k: nat)
    requires k < |trace|
    ensures WarningFor(trace[..k], trace[k]) != [] <==> GoesBack(trace, k)
    ensures forall j: nat :: j < k && LatestOf(trace[..k], j, trace[k].record.header.ctrlId) && GoesBack(trace, k) ==>
              var before, h := trace[j].record.header.timestampNs, trace[k].record.header;
              WarningFor(trace[..k], trace[k])
              == [BackInTime(h.ctrlId, before, h.timestampNs, trace[k].sourceName, trace[k].record.offset)]
    ensures Warnings(trace[..k + 1]) == Warnings(trace[..k]) + WarningFor(trace[..k], trace[k])
  {
    var c := trace[k].record.header.ctrlId;
    var before := trace[..k];
    LastTimeMeans(before, c);
    assert trace[..k + 1] == before + [trace[k]];
    WarningsSnoc(before, trace[k]);
    if LastTime(before, c).Some? {
      var j :| 0 <= j < |before| && LatestOf(before, j, c)
        && before[j].record.header.timestampNs == LastTime(before, c).value;
      assert trace[j] == before[j];
      forall i: nat | i < k && LatestOf(before, i, c)
        ensures i == j
      {
        assert before[i].record.header.ctrlId == before[j].record.header.ctrlId == c;
      }
      if GoesBack(trace, k) {
        var i :| 0 <= i < k && LatestOf(before, i, c)
          && trace[k].record.header.timestampNs < trace[i].record.header.timestampNs;
        assert before[i].record.header.ctrlId == before[j].record.header.ctrlId == c;
        assert i == j;
      }
    }
  }

  lemma {:induction false} SortedNoWarnings(trace: seq<HeapItem>)
    requires TraceSortedBy(TimeLe, trace)
    ensures Warnings(trace) == []
  {
    if trace != [] {
      var k := |trace| - 1;
      SortedNoWarnings(trace[..k]);
      assert trace[..k + 1] == trace;
      WarnsExactly(trace, k);
    }
  }

  // ---------------------------------------------------------------- determinism

  ghost predicate Distinct(names: seq<Name>) {
    forall i, j :: 0 <= i < j < |names| ==> names[i] != names[j]
  }

  lemma LeastUnique(names: seq<Name>, rem: Remaining, a: HeapItem, b: HeapItem)
    requires Distinct(names) && Pops(names, rem, a) && Pops(names, rem, b)
    requires Least(names, rem, a) && Least(names, rem, b)
    ensures a == b
  {
    hide RecordOrder, NameOrder;
    assert ItemLe(a, b) && ItemLe(b, a);
    RecordOrderReverses(a.record.header, b.record.header);
    NameOrderReverses(a.sourceName, b.sourceName);
    NameOrderEqual(a.sourceName, b.sourceName);
    assert a.sourceName == b.sourceName;
    assert a.inputIndex == b.inputIndex;
  }

  lemma {:induction false} GreedyUnique(names: seq<Name>, rem: Remaining, t1: seq<HeapItem>, e1: Remaining,
                                        t2: seq<HeapItem>, e2: Remaining)
    requires Distinct(names)
    requires Run(names, rem, t1, e1, true) && AllEmpty(e1) && Run(names, rem, t2, e2, true) && AllEmpty(e2)
    ensures t1 == t2
    decreases |t1|
  {
    hide Least, Distinct;
    if t1 != [] && t2 != [] {
      LeastUnique(names, rem, t1[0], t2[0]);
      GreedyUnique(names, After(rem, t1[0].inputIndex), t1[1..], e1, t2[1..], e2);
      assert t1 == [t1[0]] + t1[1..] && t2 == [t2[0]] + t2[1..];
    }
  }

  /** `p` sends the positions of one input list to the positions of the same inputs in another. */
  ghost predicate Permutes(p: seq<nat>, n: nat) {
    && |p| == n
    && (forall i :: 0 <= i < n ==> p[i] < n)
    && (forall i, j :: 0 <= i < j < n ==> p[i] != p[j])
    && (forall k :: 0 <= k < n ==> k in p)
  }

  ghost predicate Rearranged<T(!new)>(p: seq<nat>, from: seq<T>, to: seq<T>)
    requires Permutes(p, |from|)
  {
    |to| == |from| && forall i :: 0 <= i < |from| ==> to[p[i]] == from[i]
  }

  function Relabel(p: seq<nat>, trace: seq<HeapItem>): (t: seq<HeapItem>)
    requires forall item <- trace :: item.inputIndex < |p|
  {
    if trace == [] then []
    else [trace[0].(inputIndex := p[trace[0].inputIndex])] + Relabel(p, trace[1..])
  }

  lemma RearrangedStep(p: seq<nat>, names: seq<Name>, names': seq<Name>, rem: Remaining, rem': Remaining,
                       item: HeapItem)
    requires Permutes(p, |rem|) && |names| == |rem|
    requires Rearranged(p, names, names') && Rearranged(p, rem, rem')
    requires Pops(names, rem, item) && Least(names, rem, item)
    ensures var item' := item.(inputIndex := p[item.inputIndex]);
            && Pops(names', rem', item') && Least(names', rem', item')
            && Rearranged(p, After(rem, item.inputIndex), After(rem', item'.inputIndex))
  {
    hide RecordOrder, NameOrder;
    var item' := item.(inputIndex := p[item.inputIndex]);
    forall j | 0 <= j < |rem'| && rem'[j] != []
      ensures ItemLe(item', HeadItem(names', rem', j))
    {
      assert j in p;
      var i :| 0 <= i < |rem| && p[i] == j;
      assert ItemLe(item, HeadItem(names, rem, i));
    }
  }

  /** A greedy run over one input list, relabelled, is a greedy run over the rearranged list. */
  lemma {:induction false} RunRearranged(p: seq<nat>, names: seq<Name>, names': seq<Name>, rem: Remaining,
                                         rem': Remaining, trace: seq<HeapItem>, end: Remaining)
      returns (end': Remaining)
    requires Permutes(p, |rem|) && |names| == |rem|
    requires Rearranged(p, names, names') && Rearranged(p, rem, rem')
    requires Run(names, rem, trace, end, true) && AllEmpty(end)
    ensures forall item <- trace :: item.inputIndex < |p|
    ensures Run(names', rem', Relabel(p, trace), end', true) && AllEmpty(end')
    ensures TraceBytes(Relabel(p, trace)) == TraceBytes(trace)
    decreases |trace|
  {
    hide Least, Pops, Permutes, Rearranged;
    RunIndices(names, rem, trace, end, true);
    assert |p| == |rem| by { PermutesLength(p, |rem|); }
    if trace == [] {
      end' := rem';
      assert Relabel(p, trace) == [];
      assert |names'| == |names| by { RearrangedLength(p, names, names'); }
      RearrangedEmpty(p, rem, rem');
    } else {
      PopsShape(names, rem, trace[0]);
      RearrangedStep(p, names, names', rem, rem', trace[0]);
      PopsShape(names', rem', trace[0].(inputIndex := p[trace[0].inputIndex]));
      end' := RunRearranged(p, names, names', After(rem, trace[0].inputIndex),
                            After(rem', p[trace[0].inputIndex]), trace[1..], end);
      assert Relabel(p, trace)[1..] == Relabel(p, trace[1..]);
    }
  }

  lemma RearrangedLength<T(!new)>(p: seq<nat>, from: seq<T>, to: seq<T>)
    requires Permutes(p, |from|) && Rearranged(p, from, to)
    ensures |to| == |from|
  {
  }

  lemma PermutesLength(p: seq<nat>, n: nat)
    requires Permutes(p, n)
    ensures |p| == n
  {
  }

  lemma RearrangedEmpty(p: seq<nat>, rem: Remaining, rem': Remaining)
    requires Permutes(p, |rem|) && Rearranged(p, rem, rem') && AllEmpty(rem)
    ensures AllEmpty(rem') && |rem'| == |rem|
  {
    forall j | 0 <= j < |rem'|
      ensures rem'[j] == []
    {
      assert j in p;
      var i :| 0 <= i < |rem| && p[i] == j;
    }
  }

  /** Rearranged inputs have the same headers. */
  lemma HeadersRearranged(p: seq<nat>, rem: Remaining, rem': Remaining)
    requires Permutes(p, |rem|) && Rearranged(p, rem, rem')
    ensures AllHeaders(rem') == AllHeaders(rem)
  {
    forall h
      ensures h in AllHeaders(rem') <==> h in AllHeaders(rem)
    {
      if h in AllHeaders(rem) {
        var i, k :| 0 <= i < |rem| && 0 <= k < |rem[i]| && rem[i][k].header == h;
        assert rem'[p[i]][k].header == h;
      }
      if h in AllHeaders(rem') {
        var j, k :| 0 <= j < |rem'| && 0 <= k < |rem'[j]| && rem'[j][k].header == h;
        assert j in p;
        var i :| 0 <= i < |rem| && p[i] == j;
        assert rem[i][k].header == h;
      }
    }
  }

  /** Determinism: where the record order is transitive on the inputs' headers, two merges of the same
      distinctly named inputs, listed in different orders, write the same bytes. */
  lemma SpliceDeterministic(p: seq<nat>, names: seq<Name>, names': seq<Name>, inputs: Remaining, inputs': Remaining,
                            trace: seq<HeapItem>, trace': seq<HeapItem>)
    requires Permutes(p, |inputs|) && |names| == |inputs| && Distinct(names')
    requires Rearranged(p, names, names') && Rearranged(p, inputs, inputs')
    requires TransitiveOn(AllHeaders(inputs))
    requires FullRun(names, inputs, trace, TransitiveOn(AllHeaders(inputs)))
    requires FullRun(names', inputs', trace', TransitiveOn(AllHeaders(inputs')))
    ensures TraceBytes(trace) == TraceBytes(trace')
  {
    hide Run, Permutes, Rearranged, Distinct, TraceBytes, TransitiveOn, AllHeaders;
    HeadersRearranged(p, inputs, inputs');
    var end :| AllEmpty(end) && Run(names, inputs, trace, end, true);
    var end' :| AllEmpty(end') && Run(names', inputs', trace', end', true);
    var e := RunRearranged(p, names, names', inputs, inputs', trace, end);
    GreedyUnique(names', inputs', trace', end', Relabel(p, trace), e);
  }
}
