/** The merge loop of `splice_streams_with_names`, proved to perform a merge run. */
module SpliceRun {
  import opened Bytes
  import opened Records
  import opened Logs
  import opened Reader
  import opened Order
  import opened Ftrace
  import opened Splice

  /** `std::collections::BinaryHeap`, reduced to what it promises: `Pop` removes some element, and a
      maximum if the order is a total preorder on everything the heap ever held. */
  class BinaryHeap {
    var items: seq<HeapItem>
    ghost var seen: set<Header>

    constructor ()
      ensures items == [] && seen == {}
    {
      items := [];
      seen := {};
    }

    ghost predicate Valid()
      reads this
    {
      forall x <- items :: x.record.header in seen
    }

    method Push(item: HeapItem)
      requires Valid()
      modifies this
      ensures Valid() && items == old(items) + [item] && seen == old(seen) + {item.record.header}
    {
      items := items + [item];
      seen := seen + {item.record.header};
    }

    method Pop() returns (item: HeapItem, ghost at: nat)
      requires Valid() && items != []
      modifies this
      ensures Valid() && seen == old(seen)
      ensures at < |old(items)| && item == old(items)[at]
      ensures items == Without(old(items), at)
      ensures TransitiveOn(seen) ==> forall x <- old(items) :: ItemLe(item, x)
    {
      hide ItemLe, HeapCmp, Le;
      ghost var s := seen;
      var best := 0;
      ItemLeReflexive(items[0]);
      for i := 1 to |items|
        invariant items == old(items) && seen == s && best < |items|
        invariant TransitiveOn(s) ==> forall j :: 0 <= j < i ==> ItemLe(items[best], items[j])
      {
        ghost var was := best;
        HeapCmpMeans(items[i], items[best]);
        ItemLeReflexive(items[i]);
        if HeapCmp(items[i], items[best]) == Greater {
          best := i;
        }
        if TransitiveOn(s) {
          forall j | 0 <= j < i + 1
            ensures ItemLe(items[best], items[j])
          {
            if j < i && best == i {
              ItemLeTransitive(items[i], items[was], items[j]);
            }
          }
        }
      }
      item := items[best];
      at := best;
      items := Without(items, best);
    }
  }

  lemma ItemLeReflexive(a: HeapItem)
    ensures ItemLe(a, a)
  {
    NameOrderEqual(a.sourceName, a.sourceName);
  }

  lemma HeapCmpMeans(a: HeapItem, b: HeapItem)
    ensures HeapCmp(a, b).Greater? ==> ItemLe(a, b)
    ensures !HeapCmp(a, b).Greater? ==> ItemLe(b, a)
  {
    hide ItemOrder, HeapCmp;
    HeapCmpReverses(a, b);
    HeapCmpReverses(b, a);
  }

  // ---------------------------------------------------------------- heap and readers against the run

  ghost predicate Holds(items: seq<HeapItem>, i: nat) {
    exists x <- items :: x.inputIndex == i
  }

  ghost predicate OnePerInput(items: seq<HeapItem>) {
    forall p, q :: 0 <= p < q < |items| ==> items[p].inputIndex != items[q].inputIndex
  }

  function Without(items: seq<HeapItem>, at: nat): seq<HeapItem>
    requires at < |items|
  {
    items[..at] + items[at + 1..]
  }

  lemma WithoutOne(items: seq<HeapItem>, at: nat)
    requires OnePerInput(items) && at < |items|
    ensures var left := Without(items, at);
            && OnePerInput(left)
            && (forall x <- left :: x in items && x.inputIndex != items[at].inputIndex)
            && (forall j: nat :: j != items[at].inputIndex && Holds(items, j) ==> Holds(left, j))
  {
    hide OnePerInput;
    WithoutDistinct(items, at);
    var left := Without(items, at);
    forall j: nat | j != items[at].inputIndex && Holds(items, j)
      ensures Holds(left, j)
    {
      var x :| x in items && x.inputIndex == j;
      var p :| 0 <= p < |items| && items[p] == x;
      assert left[if p < at then p else p - 1] == x;
    }
  }

  lemma WithoutDistinct(items: seq<HeapItem>, at: nat)
    requires OnePerInput(items) && at < |items|
    ensures var left := Without(items, at);
            && OnePerInput(left)
            && (forall x <- left :: x in items && x.inputIndex != items[at].inputIndex)
  {
    var left := Without(items, at);
    assert forall p :: 0 <= p < |left| ==> left[p] == items[if p < at then p else p + 1];
  }

  lemma HoldsSnoc(items: seq<HeapItem>, y: HeapItem)
    requires OnePerInput(items) && !Holds(items, y.inputIndex)
    ensures OnePerInput(items + [y])
    ensures forall j: nat :: Holds(items + [y], j) <==> Holds(items, j) || j == y.inputIndex
  {
    var next := items + [y];
    assert next[|items|] == y;
    forall p, q | 0 <= p < q < |next|
      ensures next[p].inputIndex != next[q].inputIndex
    {
      assert next[p] in items;
    }
    forall j: nat | Holds(items, j)
      ensures Holds(next, j)
    {
      var x :| x in items && x.inputIndex == j;
      assert x in next;
    }
  }

  /** The inputs before `upto` have their head in the heap or are exhausted; the others are untouched. */
  ghost predicate HeapMatches(items: seq<HeapItem>, names: seq<Name>, rem: Remaining, tails: seq<Decoded>, upto: nat)
  {
    && |names| == |rem| == |tails| && upto <= |rem|
    && (forall x <- items :: x.inputIndex < upto && x.sourceName == names[x.inputIndex]
          && rem[x.inputIndex] == [x.record] + tails[x.inputIndex].records)
    && OnePerInput(items)
    && (forall i :: 0 <= i < upto ==> Holds(items, i) || (rem[i] == [] && tails[i] == Decoded([], None)))
    && (forall i :: upto <= i < |rem| ==> rem[i] == tails[i].records)
  }

  lemma MatchesStart(names: seq<Name>, tails: seq<Decoded>, rem: Remaining)
    requires |names| == |tails| == |rem|
    requires forall i :: 0 <= i < |rem| ==> rem[i] == tails[i].records
    ensures HeapMatches([], names, rem, tails, 0)
  {
  }

  /** Reading the first record of input `k`. */
  lemma MatchesOpen(items: seq<HeapItem>, names: seq<Name>, rem: Remaining, tails: seq<Decoded>, k: nat, raw: RawRecord,
                    tail: Decoded)
    requires HeapMatches(items, names, rem, tails, k) && k < |rem|
    requires tails[k].records == [raw] + tail.records
    ensures HeapMatches(items + [HeapItem(names[k], k, raw)], names, rem, tails[k := tail], k + 1)
  {
    hide OnePerInput, Holds;
    assert !Holds(items, k) by {
      HoldsBelow(items, k);
    }
    HoldsSnoc(items, HeapItem(names[k], k, raw));
  }

  lemma HoldsBelow(items: seq<HeapItem>, k: nat)
    requires forall x <- items :: x.inputIndex < k
    ensures !Holds(items, k)
  {
  }

  lemma MatchesOpenEmpty(items: seq<HeapItem>, names: seq<Name>, rem: Remaining, tails: seq<Decoded>, k: nat)
    requires HeapMatches(items, names, rem, tails, k) && k < |rem|
    requires tails[k] == Decoded([], None)
    ensures HeapMatches(items, names, rem, tails, k + 1)
  {
  }

  lemma MatchesPops(items: seq<HeapItem>, names: seq<Name>, rem: Remaining, tails: seq<Decoded>, at: nat)
    requires HeapMatches(items, names, rem, tails, |rem|) && at < |items|
    ensures Pops(names, rem, items[at])
    ensures rem[items[at].inputIndex][1..] == tails[items[at].inputIndex].records
  {
    hide OnePerInput, Holds;
    assert items[at] in items;
  }

  /** The popped input has another record. */
  lemma MatchesRefill(items: seq<HeapItem>, names: seq<Name>, rem: Remaining, tails: seq<Decoded>, at: nat,
                      raw: RawRecord, tail: Decoded)
    requires HeapMatches(items, names, rem, tails, |rem|) && at < |items|
    requires Pops(names, rem, items[at])
    requires tails[items[at].inputIndex].records == [raw] + tail.records
    ensures var i := items[at].inputIndex;
            HeapMatches(Without(items, at) + [HeapItem(items[at].sourceName, i, raw)], names,
                        After(rem, i), tails[i := tail], |rem|)
  {
    hide OnePerInput, Holds;
    MatchesPops(items, names, rem, tails, at);
    WithoutOne(items, at);
    var i := items[at].inputIndex;
    NotHeld(Without(items, at), i);
    HoldsSnoc(Without(items, at), HeapItem(items[at].sourceName, i, raw));
  }

  lemma NotHeld(items: seq<HeapItem>, i: nat)
    requires forall x <- items :: x.inputIndex != i
    ensures !Holds(items, i)
  {
  }

  /** The popped input is at its end. */
  lemma MatchesDrain(items: seq<HeapItem>, names: seq<Name>, rem: Remaining, tails: seq<Decoded>, at: nat)
    requires HeapMatches(items, names, rem, tails, |rem|) && at < |items|
    requires Pops(names, rem, items[at])
    requires tails[items[at].inputIndex] == Decoded([], None)
    ensures HeapMatches(Without(items, at), names, After(rem, items[at].inputIndex), tails, |rem|)
  {
    hide OnePerInput, Holds;
    MatchesPops(items, names, rem, tails, at);
    WithoutOne(items, at);
  }

  lemma MatchesEmpty(names: seq<Name>, rem: Remaining, tails: seq<Decoded>)
    requires HeapMatches([], names, rem, tails, |rem|)
    ensures AllEmpty(rem) && forall i :: 0 <= i < |tails| ==> tails[i] == Decoded([], None)
  {
  }

  /** A popped minimum of the heap is a least head of the run. */
  lemma MatchesLeast(items: seq<HeapItem>, names: seq<Name>, rem: Remaining, tails: seq<Decoded>, item: HeapItem)
    requires HeapMatches(items, names, rem, tails, |rem|)
    requires forall x <- items :: ItemLe(item, x)
    ensures Least(names, rem, item)
  {
    hide ItemLe;
    forall j | 0 <= j < |rem| && rem[j] != []
      ensures ItemLe(item, HeadItem(names, rem, j))
    {
      assert Holds(items, j);
      var x :| x in items && x.inputIndex == j;
      assert x == HeadItem(names, rem, j);
    }
  }

  /** What reading one record does to a reader's decoded future. */
  lemma TailOfNext(s: seq<byte>, offset: nat, step: Step)
    requires step == Next(s, offset)
    ensures match step
            case Done => Decode(s, offset) == Decoded([], None)
            case Fail(e) => Decode(s, offset) == Decoded([], Some(e))
            case Rec(raw) =>
              var d := Decode(s[|raw.bytes|..], offset + |raw.bytes|);
              Decode(s, offset) == Decoded([raw] + d.records, d.end)
  {
    hide Next;
  }

  // ---------------------------------------------------------------- the readers

  ghost predicate ReadersOk(readers: seq<RecordReader>)
    reads readers, set r <- readers :: r.inner
  {
    && (forall r <- readers :: r.inner.Valid())
    && (forall i, j :: 0 <= i < j < |readers| ==> readers[i] != readers[j] && readers[i].inner != readers[j].inner)
  }

  /** The records each reader would still deliver. */
  ghost predicate Futures(readers: seq<RecordReader>, tails: seq<Decoded>)
    requires ReadersOk(readers)
    reads readers, set r <- readers :: r.inner
  {
    && |tails| == |readers|
    && forall i :: 0 <= i < |readers| ==> Decode(readers[i].inner.Rest(), readers[i].offset) == tails[i]
  }

  ghost predicate CanFail(readers: seq<RecordReader>)
    reads set r <- readers :: r.inner
  {
    exists r <- readers :: Failing in r.inner.schedule
  }

  ghost function FutureOf(reader: RecordReader): Decoded
    requires reader.inner.Valid()
    reads reader, reader.inner
  {
    Decode(reader.inner.Rest(), reader.offset)
  }

  /** One reader delivers its next record; the others do not move. */
  method Advance(readers: seq<RecordReader>, k: nat, ghost tails: seq<Decoded>)
      returns (r: Result<Option<RawRecord>>, ghost tails': seq<Decoded>)
    requires ReadersOk(readers) && k < |readers| && Futures(readers, tails)
    modifies readers[k], readers[k].inner
    ensures ReadersOk(readers)
    ensures CanFail(readers) ==> old(CanFail(readers))
    ensures r == Err(IoError) ==> old(CanFail(readers))
    ensures r != Err(IoError) && r.Err? ==> tails[k] == Decoded([], Some(r.error))
    ensures r.Ok? ==> Futures(readers, tails')
    ensures r == Ok(None) ==> tails' == tails && tails[k] == Decoded([], None)
    ensures r.Ok? && r.value.Some? ==>
      && tails' == tails[k := tails'[k]] && tails[k] == Decoded([r.value.value] + tails'[k].records, tails'[k].end)
  {
    hide Next, Decode;
    tails' := tails;
    var reader := readers[k];
    ghost var rest, offset := reader.inner.Rest(), reader.offset;
    TailOfNext(rest, offset, Next(rest, offset));
    assert reader.inner.Valid();
    r := reader.NextRecord();
    assert forall i :: 0 <= i < |readers| && i != k ==> readers[i] != reader && readers[i].inner != reader.inner;
    if r.Ok? && r.value.Some? {
      tails' := tails[k := FutureOf(reader)];
    }
  }

  // ---------------------------------------------------------------- the merge

  /** Every header that can still show up belongs to the inputs. */
  lemma RemHeaders(names: seq<Name>, inputs: Remaining, trace: seq<HeapItem>, rem: Remaining, greedy: bool, i: nat)
    requires Run(names, inputs, trace, rem, greedy) && i < |rem| && rem[i] != []
    ensures rem[i][0].header in AllHeaders(inputs)
  {
    hide Run, AllHeaders;
    RunSameLength(names, inputs, trace, rem, greedy);
    RunConserves(names, inputs, trace, rem, greedy, i);
    var k := |Project(trace, i)|;
    assert inputs[i][k] == rem[i][0];
  }

  lemma {:induction false} RunSameLength(names: seq<Name>, rem: Remaining, trace: seq<HeapItem>, end: Remaining,
                                         greedy: bool)
    requires Run(names, rem, trace, end, greedy)
    ensures |names| == |rem| == |end|
    decreases |trace|
  {
    hide Least;
    if trace != [] {
      RunSameLength(names, After(rem, trace[0].inputIndex), trace[1..], end, greedy);
    }
  }

  /** Everything the merge loop maintains besides the output. */
  ghost predicate Merging(names: seq<Name>, inputs: Remaining, trace: seq<HeapItem>, rem: Remaining,
                          tails: seq<Decoded>, items: seq<HeapItem>, seen: set<Header>, greedy: bool)
  {
    && |rem| == |names|
    && Run(names, inputs, trace, rem, greedy)
    && HeapMatches(items, names, rem, tails, |rem|)
    && seen <= AllHeaders(inputs)
  }

  /** Popping from the heap extends the run. */
  lemma MergingPop(names: seq<Name>, inputs: Remaining, trace: seq<HeapItem>, rem: Remaining, tails: seq<Decoded>,
                   items: seq<HeapItem>, seen: set<Header>, greedy: bool, at: nat)
    requires Merging(names, inputs, trace, rem, tails, items, seen, greedy) && at < |items|
    requires greedy ==> TransitiveOn(AllHeaders(inputs))
    requires TransitiveOn(seen) ==> forall x <- items :: ItemLe(items[at], x)
    ensures Pops(names, rem, items[at])
    ensures Run(names, inputs, trace + [items[at]], After(rem, items[at].inputIndex), greedy)
  {
    hide Run, HeapMatches, Least, ItemLe, AllHeaders, Le;
    MatchesPops(items, names, rem, tails, at);
    if greedy {
      assert TransitiveOn(seen);
      MatchesLeast(items, names, rem, tails, items[at]);
    }
    RunSnoc(names, inputs, trace, rem, items[at], greedy);
  }

  lemma MergingRefill(names: seq<Name>, inputs: Remaining, trace: seq<HeapItem>, rem: Remaining, tails: seq<Decoded>,
                      items: seq<HeapItem>, seen: set<Header>, greedy: bool, at: nat, raw: RawRecord, tail: Decoded)
    requires Merging(names, inputs, trace, rem, tails, items, seen, greedy) && at < |items|
    requires Pops(names, rem, items[at])
    requires Run(names, inputs, trace + [items[at]], After(rem, items[at].inputIndex), greedy)
    requires tails[items[at].inputIndex].records == [raw] + tail.records
    ensures var i := items[at].inputIndex;
            Merging(names, inputs, trace + [items[at]], After(rem, i), tails[i := tail],
                    Without(items, at) + [HeapItem(items[at].sourceName, i, raw)], seen + {raw.header}, greedy)
  {
    hide Run, AllHeaders, Holds, OnePerInput;
    var i := items[at].inputIndex;
    MatchesPops(items, names, rem, tails, at);
    MatchesRefill(items, names, rem, tails, at, raw, tail);
    RemHeaders(names, inputs, trace + [items[at]], After(rem, i), greedy, i);
  }

  lemma MergingDrain(names: seq<Name>, inputs: Remaining, trace: seq<HeapItem>, rem: Remaining, tails: seq<Decoded>,
                     items: seq<HeapItem>, seen: set<Header>, greedy: bool, at: nat)
    requires Merging(names, inputs, trace, rem, tails, items, seen, greedy) && at < |items|
    requires Pops(names, rem, items[at])
    requires Run(names, inputs, trace + [items[at]], After(rem, items[at].inputIndex), greedy)
    requires tails[items[at].inputIndex] == Decoded([], None)
    ensures Merging(names, inputs, trace + [items[at]], After(rem, items[at].inputIndex), tails,
                    Without(items, at), seen, greedy)
  {
    hide Run, AllHeaders, Holds, OnePerInput;
    MatchesDrain(items, names, rem, tails, at);
  }

  /** Which streams decode cleanly does not change while they are read. */
  ghost predicate SameEnds(streams: seq<seq<byte>>, tails: seq<Decoded>) {
    |tails| == |streams| && forall i :: 0 <= i < |streams| ==> tails[i].end == Decode(streams[i], 0).end
  }

  ghost function Starts(streams: seq<seq<byte>>): (tails: seq<Decoded>)
    ensures |tails| == |streams|
    ensures forall i :: 0 <= i < |tails| ==> tails[i] == Decode(streams[i], 0)
  {
    seq(|streams|, i requires 0 <= i < |streams| => Decode(streams[i], 0))
  }

  /** The readers are at the beginning of the streams. */
  ghost predicate AtStart(readers: seq<RecordReader>, streams: seq<seq<byte>>)
    requires ReadersOk(readers)
    reads readers, set r <- readers :: r.inner
  {
    && |streams| == |readers|
    && forall i :: 0 <= i < |readers| ==> readers[i].inner.Rest() == streams[i] && readers[i].offset == 0
  }

  lemma FuturesAtStart(readers: seq<RecordReader>, streams: seq<seq<byte>>)
    requires ReadersOk(readers) && AtStart(readers, streams)
    ensures Futures(readers, Starts(streams))
  {
    hide Decode;
  }

  /** The first loop: every reader's first record goes into the heap. */
  method OpenInputs(readers: seq<RecordReader>, names: seq<Name>, heap: BinaryHeap, ghost streams: seq<seq<byte>>)
      returns (r: Result<()>, ghost tails: seq<Decoded>)
    requires ReadersOk(readers) && |readers| == |names| == |streams|
    requires Futures(readers, Starts(streams))
    requires heap.Valid() && heap.items == [] && heap.seen == {}
    modifies readers, (set x <- readers :: x.inner), heap
    ensures ReadersOk(readers) && heap.Valid()
    ensures CanFail(readers) ==> old(CanFail(readers))
    ensures r == Err(IoError) ==> old(CanFail(readers))
    ensures r.Err? && r.error != IoError ==> !AllClean(streams)
    ensures r.Ok? ==>
      && Futures(readers, tails) && SameEnds(streams, tails)
      && HeapMatches(heap.items, names, Inputs(streams), tails, |streams|)
      && heap.seen <= AllHeaders(Inputs(streams))
  {
    hide Decode, HeapMatches, AllHeaders, ReadersOk, Futures, CanFail;
    tails := Starts(streams);
    ghost var rem := Inputs(streams);
    MatchesStart(names, tails, rem);
    for k := 0 to |readers|
      invariant ReadersOk(readers) && heap.Valid()
      invariant Futures(readers, tails) && SameEnds(streams, tails)
      invariant CanFail(readers) ==> old(CanFail(readers))
      invariant HeapMatches(heap.items, names, rem, tails, k)
      invariant heap.seen <= AllHeaders(rem)
    {
      ghost var before := tails;
      var first;
      first, tails := Advance(readers, k, tails);
      if first.Err? {
        if first.error != IoError {
          UncleanStream(streams, before, k);
        }
        return Err(first.error), tails;
      }
      if first.value.Some? {
        FirstHeader(heap.items, names, rem, before, k, first.value.value, tails[k]);
        MatchesOpen(heap.items, names, rem, before, k, first.value.value, tails[k]);
        heap.Push(HeapItem(names[k], k, first.value.value));
      } else {
        MatchesOpenEmpty(heap.items, names, rem, before, k);
      }
    }
    r := Ok(());
  }

  lemma UncleanStream(streams: seq<seq<byte>>, tails: seq<Decoded>, k: nat)
    requires SameEnds(streams, tails) && k < |streams| && tails[k].end != None
    ensures !AllClean(streams)
  {
    hide Decode;
    assert streams[k] in streams && !Clean(streams[k]);
  }

  lemma FirstHeader(items: seq<HeapItem>, names: seq<Name>, rem: Remaining, tails: seq<Decoded>, k: nat, raw: RawRecord,
                    tail: Decoded)
    requires HeapMatches(items, names, rem, tails, k) && k < |rem|
    requires tails[k].records == [raw] + tail.records
    ensures raw.header in AllHeaders(rem)
  {
    assert rem[k][0] == raw;
  }

  /** The map holds the latest output timestamp of each controller. */
  ghost predicate LastTimes(trace: seq<HeapItem>, m: map<byte, u64>) {
    forall c: byte :: LastTime(trace, c) == if c in m then Some(m[c]) else None
  }

  /** Output of one popped item: the backwards check, then the record's bytes. */
  method WriteItem(item: HeapItem, lastTsByCtrl: map<byte, u64>, out: Vec, log: Log<Warning>,
      ghost trace: seq<HeapItem>)
      returns (m: map<byte, u64>)
    requires LastTimes(trace, lastTsByCtrl)
    modifies out, log
    ensures LastTimes(trace + [item], m)
    ensures out.bytes == old(out.bytes) + item.record.bytes
    ensures log.entries == old(log.entries) + WarningFor(trace, item)
    ensures Warnings(trace + [item]) == Warnings(trace) + WarningFor(trace, item)
  {
    hide Warnings, LastTime;
    WarningsSnoc(trace, item);
    var header := item.record.header;
    var last := if header.ctrlId in lastTsByCtrl then Some(lastTsByCtrl[header.ctrlId]) else None;
    m := lastTsByCtrl[header.ctrlId := header.timestampNs];
    if last.Some? && header.timestampNs < last.value {
      log.Add(BackInTime(header.ctrlId, last.value, header.timestampNs, item.sourceName, item.record.offset));
    }
    out.Extend(item.record.bytes);
  }

  /** One turn up to the write: pop, check the time, append the bytes. */
  method PopAndWrite(heap: BinaryHeap, lastTsByCtrl: map<byte, u64>, out: Vec, log: Log<Warning>,
                     ghost names: seq<Name>, ghost inputs: Remaining, ghost trace: seq<HeapItem>, ghost rem: Remaining,
                     ghost tails: seq<Decoded>, ghost greedy: bool)
      returns (item: HeapItem, ghost at: nat, m: map<byte, u64>)
    requires heap.Valid() && heap.items != [] && LastTimes(trace, lastTsByCtrl)
    requires Merging(names, inputs, trace, rem, tails, heap.items, heap.seen, greedy)
    requires greedy ==> TransitiveOn(AllHeaders(inputs))
    modifies heap, out, log
    ensures heap.Valid() && heap.seen == old(heap.seen)
    ensures at < |old(heap.items)| && item == old(heap.items)[at] && heap.items == Without(old(heap.items), at)
    ensures Pops(names, rem, item) && item.inputIndex < |rem| == |names| && rem[item.inputIndex] != []
    ensures Run(names, inputs, trace + [item], After(rem, item.inputIndex), greedy)
    ensures Pending(rem) == Pending(After(rem, item.inputIndex)) + 1
    ensures LastTimes(trace + [item], m)
    ensures out.bytes == old(out.bytes) + item.record.bytes
    ensures TraceBytes(trace + [item]) == TraceBytes(trace) + item.record.bytes
    ensures log.entries == old(log.entries) + WarningFor(trace, item)
    ensures Warnings(trace + [item]) == Warnings(trace) + WarningFor(trace, item)
  {
    hide HeapMatches, AllHeaders, Run, TransitiveOn, TraceBytes, Warnings, WarningFor, LastTimes, Merging, Pops,
      Without, After, ItemLe, Pending;
    ghost var items := heap.items;
    item, at := heap.Pop();
    MergingPop(names, inputs, trace, rem, tails, items, heap.seen, greedy, at);
    PopsShape(names, rem, item);
    PendingAfter(rem, item.inputIndex);
    m := WriteItem(item, lastTsByCtrl, out, log, trace);
    TraceBytesSnoc(trace, item);
  }

  /** After a pop: the popped input's next record, if any, goes into the heap. */
  method Refill(readers: seq<RecordReader>, names: seq<Name>, heap: BinaryHeap, item: HeapItem,
                ghost inputs: Remaining, ghost trace: seq<HeapItem>, ghost rem: Remaining, ghost tails: seq<Decoded>,
                ghost items: seq<HeapItem>, ghost greedy: bool, ghost at: nat, ghost streams: seq<seq<byte>>)
      returns (r: Result<()>, ghost tails': seq<Decoded>)
    requires ReadersOk(readers) && Futures(readers, tails) && SameEnds(streams, tails) && heap.Valid()
    requires Merging(names, inputs, trace, rem, tails, items, heap.seen, greedy)
    requires at < |items| && item == items[at] && heap.items == Without(items, at)
    requires |names| == |readers| == |streams|
    requires Pops(names, rem, item) && item.inputIndex < |rem| && rem[item.inputIndex] != []
    requires Run(names, inputs, trace + [item], After(rem, item.inputIndex), greedy)
    modifies readers[item.inputIndex], readers[item.inputIndex].inner, heap
    ensures ReadersOk(readers) && heap.Valid()
    ensures CanFail(readers) ==> old(CanFail(readers))
    ensures r == Err(IoError) ==> old(CanFail(readers))
    ensures r.Err? && r.error != IoError ==> !AllClean(streams)
    ensures r.Ok? ==>
      && Futures(readers, tails') && SameEnds(streams, tails')
      && Merging(names, inputs, trace + [item], After(rem, item.inputIndex), tails', heap.items, heap.seen, greedy)
  {
    hide Decode, HeapMatches, AllHeaders, Run, ReadersOk, Futures, CanFail, Pops, Without, After, ItemLe, AllClean;
    var i := item.inputIndex;
    assert |names| == |rem|;
    var next;
    next, tails' := Advance(readers, i, tails);
    if next.Err? {
      if next.error != IoError {
        UncleanStream(streams, tails, i);
      }
      return Err(next.error), tails';
    }
    if next.value.Some? {
      MergingRefill(names, inputs, trace, rem, tails, items, heap.seen, greedy, at, next.value.value, tails'[i]);
      heap.Push(HeapItem(item.sourceName, i, next.value.value));
    } else {
      MergingDrain(names, inputs, trace, rem, tails, items, heap.seen, greedy, at);
    }
    r := Ok(());
  }

  /** The second loop: pop, write, refill, until the heap is empty. */
  method MergeLoop(readers: seq<RecordReader>, names: seq<Name>, heap: BinaryHeap, out: Vec, log: Log<Warning>,
                   ghost streams: seq<seq<byte>>, ghost opening: seq<Decoded>)
      returns (r: Result<nat>, ghost trace: seq<HeapItem>)
    requires ReadersOk(readers) && Futures(readers, opening) && SameEnds(streams, opening) && heap.Valid()
    requires |readers| == |names| == |streams|
    requires HeapMatches(heap.items, names, Inputs(streams), opening, |streams|)
    requires heap.seen <= AllHeaders(Inputs(streams))
    modifies readers, (set x <- readers :: x.inner), heap, out, log
    ensures out.bytes == old(out.bytes) + TraceBytes(trace)
    ensures log.entries == old(log.entries) + Warnings(trace)
    ensures r.Ok? ==>
      && AllClean(streams)
      && FullRun(names, Inputs(streams), trace, TransitiveOn(AllHeaders(Inputs(streams))))
      && r.value == |TraceBytes(trace)|
    ensures !old(CanFail(readers)) ==> (r.Ok? <==> AllClean(streams))
  {
    hide Decode, HeapMatches, AllHeaders, Run, TransitiveOn, TraceBytes, Warnings, WarningFor, LastTime, ReadersOk,
      Futures, CanFail, Merging, Pops, SameEnds, Without, After, AllClean, FullRun, ItemLe, LastTimes, Pending, Next,
      HeadItem, Least, Clean;
    trace := [];
    TraceNil();
    ghost var inputs := Inputs(streams);
    ghost var greedy := TransitiveOn(AllHeaders(inputs));
    ghost var tails := opening;
    var written := 0;
    var lastTsByCtrl: map<byte, u64> := map[];
    ghost var rem := inputs;
    MergingStart(names, inputs, tails, heap.items, heap.seen, greedy);

    while heap.items != []
      invariant ReadersOk(readers) && heap.Valid() && Futures(readers, tails) && SameEnds(streams, tails)
      invariant CanFail(readers) ==> old(CanFail(readers))
      invariant Merging(names, inputs, trace, rem, tails, heap.items, heap.seen, greedy)
      invariant out.bytes == old(out.bytes) + TraceBytes(trace)
      invariant written == |TraceBytes(trace)|
      invariant log.entries == old(log.entries) + Warnings(trace)
      invariant LastTimes(trace, lastTsByCtrl)
      decreases Pending(rem)
    {
      ghost var items, was, ran := heap.items, rem, trace;
      var item;
      ghost var at;
      item, at, lastTsByCtrl := PopAndWrite(heap, lastTsByCtrl, out, log, names, inputs, trace, rem, tails, greedy);
      written := written + |item.record.bytes|;
      trace := trace + [item];
      rem := After(rem, item.inputIndex);

      var refilled;
      refilled, tails := Refill(readers, names, heap, item, inputs, ran, was, tails, items, greedy, at, streams);
      if refilled.Err? {
        return Err(refilled.error), trace;
      }
    }
    MergingDone(names, inputs, trace, rem, tails, heap.seen, greedy, streams);
    r := Ok(written);
  }

  /**
   Merges the readers into `out`. On success every stream was clean and the trace is a full run over
   their records; the output is the trace's bytes and the log its warnings. Where the record order is
   transitive on the inputs' headers, the run is greedy. Without source failures, it succeeds exactly
   when every stream is clean.
   */
  method SpliceStreams(readers: seq<RecordReader>, names: seq<Name>, out: Vec, log: Log<Warning>,
                       ghost streams: seq<seq<byte>>)
      returns (r: Result<nat>, ghost trace: seq<HeapItem>)
    requires ReadersOk(readers) && |readers| == |names| == |streams| && AtStart(readers, streams)
    modifies readers, (set x <- readers :: x.inner), out, log
    ensures out.bytes == old(out.bytes) + TraceBytes(trace)
    ensures log.entries == old(log.entries) + Warnings(trace)
    ensures r.Ok? ==>
      && AllClean(streams)
      && FullRun(names, Inputs(streams), trace, TransitiveOn(AllHeaders(Inputs(streams))))
      && r.value == |TraceBytes(trace)|
    ensures !old(CanFail(readers)) ==> (r.Ok? <==> AllClean(streams))
  {
    hide Decode, HeapMatches, AllHeaders, Run, TransitiveOn, TraceBytes, Warnings, ReadersOk, Futures, CanFail, Merging,
      AtStart, SameEnds, Starts, AllClean, FullRun;
    FuturesAtStart(readers, streams);
    var heap := new BinaryHeap();
    var start;
    ghost var tails;
    start, tails := OpenInputs(readers, names, heap, streams);
    if start.Err? {
      TraceNil();
      return Err(start.error), [];
    }
    r, trace := MergeLoop(readers, names, heap, out, log, streams, tails);
  }

  lemma TraceNil()
    ensures TraceBytes([]) == [] && Warnings([]) == []
    ensures LastTimes([], map[])
  {
  }

  lemma MergingStart(names: seq<Name>, inputs: Remaining, tails: seq<Decoded>, items: seq<HeapItem>, seen: set<Header>,
                     greedy: bool)
    requires |inputs| == |names| && HeapMatches(items, names, inputs, tails, |inputs|) && seen <= AllHeaders(inputs)
    ensures Merging(names, inputs, [], inputs, tails, items, seen, greedy)
  {
    hide HeapMatches, AllHeaders;
  }

  /** How many records are still to come. */
  function Pending(rem: Remaining): nat {
    if rem == [] then 0 else |rem[0]| + Pending(rem[1..])
  }

  lemma {:induction false} PendingAfter(rem: Remaining, i: nat)
    requires i < |rem| && rem[i] != []
    ensures Pending(rem) == Pending(After(rem, i)) + 1
  {
    if i > 0 {
      PendingAfter(rem[1..], i - 1);
      assert After(rem, i)[1..] == After(rem[1..], i - 1);
    } else {
      assert After(rem, i)[1..] == rem[1..];
    }
  }

  lemma MergingDone(names: seq<Name>, inputs: Remaining, trace: seq<HeapItem>, rem: Remaining, tails: seq<Decoded>,
                    seen: set<Header>, greedy: bool, streams: seq<seq<byte>>)
    requires Merging(names, inputs, trace, rem, tails, [], seen, greedy) && SameEnds(streams, tails)
    ensures FullRun(names, inputs, trace, greedy) && AllClean(streams)
  {
    hide Decode, Run, HeapMatches, AllHeaders;
    MatchesEmpty(names, rem, tails);
    assert AllEmpty(rem) && Run(names, inputs, trace, rem, greedy);
    forall s <- streams
      ensures Clean(s)
    {
      var i :| 0 <= i < |streams| && streams[i] == s;
      assert tails[i].end == Decode(s, 0).end;
    }
  }
}
