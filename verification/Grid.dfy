/**
 What the sampling loop emits: on the grid 0, s, 2s, … up to the largest offset, each
 time once, exactly unless the 64-bit limit is reached; and for records in time order,
 the depths after exactly the records up to that time.
 */
module Grid {
  import opened Bytes
  import opened Records
  import opened Analysis
  import opened QueueDepth
  import opened Arith

  function Highest(calls: seq<Call>): (b: nat) {
    if calls == [] then 0
    else
      var rest := Highest(calls[1..]);
      if calls[0].bound < rest then rest else calls[0].bound
  }

  /** The cut of the first call that reaches time `t`. */
  function FirstCut(calls: seq<Call>, t: nat): (cut: nat)
    requires t < Highest(calls)
  {
    if t < calls[0].bound then calls[0].cut else FirstCut(calls[1..], t)
  }

  /** One sample for each grid time from `t` on that some call reaches, in the state of the first such call. */
  function GridFrom(calls: seq<Call>, t: nat, scale: nat): (r: seq<Sample>)
    requires scale > 0 && CallsOk(calls)
    decreases if t < Highest(calls) then Highest(calls) - t else 0
  {
    HighestOk(calls);
    if t >= Highest(calls) then [] else [Sample(t, FirstCut(calls, t))] + GridFrom(calls, t + scale, scale)
  }

  lemma {:induction false} HighestOk(calls: seq<Call>)
    requires CallsOk(calls)
    ensures Highest(calls) <= U64_SIZE
  {
    if calls != [] {
      HighestOk(calls[1..]);
    }
  }

  /** The grid in closed form. */
  lemma {:induction false} GridTimes(calls: seq<Call>, t: nat, scale: nat, k: nat)
    requires scale > 0 && CallsOk(calls)
    ensures k < |GridFrom(calls, t, scale)| <==> t + k * scale < Highest(calls)
    ensures t + k * scale < Highest(calls) ==> t + k * scale < U64_SIZE
    ensures k < |GridFrom(calls, t, scale)| ==>
              GridFrom(calls, t, scale)[k] == Sample(t + k * scale, FirstCut(calls, t + k * scale))
    decreases k
  {
    hide FirstCut, Highest, CallsOk;
    HighestOk(calls);
    if k > 0 && t < Highest(calls) {
      GridTimes(calls, t + scale, scale, k - 1);
      assert t + scale + (k - 1) * scale == t + k * scale;
    } else if k > 0 {
      assert k * scale >= 0;
    }
  }

  /** A call that is already below `t` does not matter from `t` on. */
  lemma {:induction false} GridSkips(calls: seq<Call>, t: nat, scale: nat)
    requires scale > 0 && CallsOk(calls) && calls != [] && t >= calls[0].bound
    ensures GridFrom(calls, t, scale) == GridFrom(calls[1..], t, scale)
    decreases if t < Highest(calls) then Highest(calls) - t else 0
  {
    if t < Highest(calls) {
      GridSkips(calls, t + scale, scale);
    }
  }

  /** How many calls reach beyond time `top`. */
  function Reaching(calls: seq<Call>, top: nat): nat {
    if calls == [] then 0 else (if calls[0].bound > top then 1 else 0) + Reaching(calls[1..], top)
  }

  /** `top` is the grid time after `next` whose successor no longer fits 64 bits, `k` steps away. */
  predicate LastFitting(top: u64, next: nat, scale: u64, k: nat) {
    top == next + k * scale && top + scale >= U64_SIZE
  }

  lemma StepsDown(top: u64, next: nat, scale: u64, k: nat)
    requires LastFitting(top, next, scale, k)
    ensures next <= top
    ensures next + scale < U64_SIZE && scale > 0 ==> k > 0 && LastFitting(top, next + scale, scale, k - 1)
    ensures next + scale >= U64_SIZE && scale > 0 ==> next == top
  {
    assert k * scale >= 0;
    if k > 0 {
      assert k * scale == (k - 1) * scale + scale;
      assert (k - 1) * scale >= 0;
    }
  }

  /** One sample at time `top` for each call that reaches beyond it. */
  function AtTop(calls: seq<Call>, top: u64): (r: seq<Sample>)
    ensures |r| == Reaching(calls, top)
    ensures forall sample <- r :: sample.time == top
  {
    if calls == [] then []
    else (if calls[0].bound > top then [Sample(top, calls[0].cut)] else []) + AtTop(calls[1..], top)
  }

  lemma {:induction false} TopRepeats(calls: seq<Call>, top: u64, scale: u64)
    requires scale > 0 && top + scale >= U64_SIZE
    ensures RunCalls(calls, top, scale) == AtTop(calls, top)
    decreases |calls|
  {
    if calls != [] {
      TopRepeats(calls[1..], top, scale);
    }
  }

  /** At the last fitting time the grid is one sample, the first of those at `top`. */
  lemma GridAtTop(calls: seq<Call>, top: u64, scale: u64)
    requires scale > 0 && CallsOk(calls) && calls != [] && top < calls[0].bound && top + scale >= U64_SIZE
    ensures AtTop(calls, top) != [] && GridFrom(calls, top, scale) == AtTop(calls, top)[..1]
  {
    HighestOk(calls);
    assert GridFrom(calls, top + scale, scale) == [];
  }

  /** A sample below the last fitting time, where both go on. */
  lemma BothAdvance(calls: seq<Call>, next: u64, scale: u64)
    requires scale > 0 && CallsOk(calls) && calls != [] && next < calls[0].bound && next + scale < U64_SIZE
    ensures var first := Sample(next, calls[0].cut);
            && RunCalls(calls, next, scale) == [first] + RunCalls(calls, next + scale, scale)
            && GridFrom(calls, next, scale) == [first] + GridFrom(calls, next + scale, scale)
  {
  }

  lemma BothSkip(calls: seq<Call>, next: u64, scale: u64, top: u64)
    requires scale > 0 && calls != [] && calls[0].bound <= next <= top
    ensures RunCalls(calls, next, scale) == RunCalls(calls[1..], next, scale)
    ensures AtTop(calls, top) == AtTop(calls[1..], top)
  {
  }

  /** The samples at `top` after the first. */
  function Again(calls: seq<Call>, top: u64): (r: seq<Sample>)
    ensures |r| == if Reaching(calls, top) == 0 then 0 else Reaching(calls, top) - 1
  {
    var all := AtTop(calls, top);
    if all == [] then [] else all[1..]
  }

  /** What the emitter samples, always: the grid, and then the last fitting time again for every call after
      the first that reaches beyond it. */
  lemma {:induction false} RunExactly(calls: seq<Call>, next: u64, scale: u64, top: u64, k: nat)
    requires scale > 0 && CallsOk(calls) && LastFitting(top, next, scale, k)
    ensures RunCalls(calls, next, scale) == GridFrom(calls, next, scale) + Again(calls, top)
    decreases |calls|, if calls == [] || next >= calls[0].bound then 0 else calls[0].bound - next
  {
    hide LastFitting, RunCalls, GridFrom, AtTop;
    if calls == [] {
      NothingToRun(next, scale, top);
    } else {
      StepsDown(top, next, scale, k);
      if next >= calls[0].bound {
        GridSkips(calls, next, scale);
        BothSkip(calls, next, scale, top);
        RunExactly(calls[1..], next, scale, top, k);
      } else if next + scale >= U64_SIZE {
        TopRepeats(calls, top, scale);
        GridAtTop(calls, top, scale);
      } else {
        BothAdvance(calls, next, scale);
        RunExactly(calls, next + scale, scale, top, k - 1);
      }
    }
  }

  lemma NothingToRun(next: u64, scale: u64, top: u64)
    requires scale > 0
    ensures RunCalls([], next, scale) == [] && GridFrom([], next, scale) == [] && AtTop([], top) == []
  {
  }

  // ---------------------------------------------------------------- over record lists

  function MaxOffset(os: seq<u64>): (m: u64)
    requires os != []
    ensures m in os && forall o <- os :: o <= m
  {
    if |os| == 1 then os[0]
    else
      var m := MaxOffset(os[1..]);
      assert os == [os[0]] + os[1..];
      if m < os[0] then os[0] else m
  }

  lemma {:induction false} CallsBounds(os: seq<u64>, i: nat)
    requires 1 <= i <= |os|
    ensures CallsOk(CallsFrom(os, i))
    ensures Highest(CallsFrom(os, i)) == MaxOffset(os[i - 1..]) + 1
    decreases |os| - i
  {
    hide CallsFrom, Highest, CallsOk, MaxOffset;
    CallsStep(os, i);
    if i == |os| {
      HighestOne(Call(Past(os[i - 1]), i));
      MaxOffsetCons(os[i - 1..]);
    } else {
      CallsBounds(os, i + 1);
      assert os[i - 1..][1..] == os[i..];
      MaxOffsetCons(os[i - 1..]);
      MaxOffsetCons(os[i..]);
      if os[i] != os[i - 1] {
        var calls := CallsFrom(os, i);
        HighestCons(calls);
        HighestCons(calls[1..]);
      }
    }
  }

  lemma HighestOne(c: Call)
    requires c.bound <= U64_SIZE
    ensures CallsOk([c]) && Highest([c]) == c.bound
  {
    assert Highest([c][1..]) == 0;
  }

  lemma HighestCons(calls: seq<Call>)
    requires calls != []
    ensures Highest(calls) == if calls[0].bound < Highest(calls[1..]) then Highest(calls[1..]) else calls[0].bound
    ensures CallsOk(calls[1..]) && calls[0].bound <= U64_SIZE ==> CallsOk(calls)
  {
    assert calls == [calls[0]] + calls[1..];
  }

  lemma MaxOffsetCons(os: seq<u64>)
    requires os != []
    ensures |os| == 1 ==> MaxOffset(os) == os[0]
    ensures |os| > 1 ==> MaxOffset(os) == if MaxOffset(os[1..]) < os[0] then os[0] else MaxOffset(os[1..])
    ensures os[0] <= MaxOffset(os)
  {
  }

  /** The last grid time, and that its successor does not fit. */
  function Top(scale: u64): (top: u64)
    requires scale > 0
    ensures LastFitting(top, 0, scale, (U64_SIZE - 1) / scale)
  {
    (U64_SIZE - 1) / scale * scale
  }

  /** The samples are the grid: each of 0, s, 2s, … up to the largest offset once, and nothing else. */
  ghost predicate SampledOnGrid(rs: seq<TraceRecord>, scale: u64)
    requires scale > 0 && rs != []
  {
    var os := Offsets(rs);
    var samples := Samples(rs, scale);
    && |samples| == MaxOffset(os) / scale + 1
    && forall k :: 0 <= k < |samples| ==> samples[k].time == k * scale
  }

  /** The samples of any records, whatever their order and their offsets. */
  lemma SamplesExactly(rs: seq<TraceRecord>, scale: u64)
    requires scale > 0 && rs != []
    ensures CallsOk(Calls(Offsets(rs))) && Highest(Calls(Offsets(rs))) == MaxOffset(Offsets(rs)) + 1
    ensures Samples(rs, scale) == GridFrom(Calls(Offsets(rs)), 0, scale) + Again(Calls(Offsets(rs)), Top(scale))
  {
    hide RunCalls, GridFrom, CallsFrom, Offset, FirstCut, MaxOffset, Highest, Again;
    var os := Offsets(rs);
    CallsBounds(os, 1);
    assert os[0..] == os;
    RunExactly(Calls(os), 0, scale, Top(scale), (U64_SIZE - 1) / scale);
  }

  /** Samples of any records, in whatever order, when the 64-bit limit is not in the way. */
  lemma SamplesAreGrid(rs: seq<TraceRecord>, scale: u64)
    requires scale > 0 && rs != [] && Reaching(Calls(Offsets(rs)), Top(scale)) <= 1
    ensures CallsOk(Calls(Offsets(rs))) && Samples(rs, scale) == GridFrom(Calls(Offsets(rs)), 0, scale)
    ensures SampledOnGrid(rs, scale)
  {
    hide RunCalls, GridFrom, CallsFrom, Offset, FirstCut, MaxOffset, Highest, AtTop;
    var os := Offsets(rs);
    SamplesExactly(rs, scale);
    assert Again(Calls(os), Top(scale)) == [];
    var samples := Samples(rs, scale);
    var n := MaxOffset(os) / scale + 1;
    DivBounds(MaxOffset(os), scale);
    GridTimes(Calls(os), 0, scale, n);
    GridTimes(Calls(os), 0, scale, n - 1);
    forall k | 0 <= k < |samples|
      ensures samples[k].time == k * scale
    {
      GridTimes(Calls(os), 0, scale, k);
    }
  }

  /** Record `j` moves the offset, and time `t` is due by the offset before it or before the offset it brings. */
  predicate DueBefore(os: seq<u64>, j: nat, t: nat)
    requires 1 <= j < |os|
  {
    os[j] != os[j - 1] && (t <= os[j - 1] || t < os[j])
  }

  lemma FirstCutTwo(calls: seq<Call>, t: nat)
    requires |calls| >= 2 && t < Highest(calls)
    ensures t >= calls[0].bound && t >= calls[1].bound ==> t < Highest(calls[1..][1..])
    ensures FirstCut(calls, t) ==
            if t < calls[0].bound then calls[0].cut else if t < calls[1].bound then calls[1].cut
            else FirstCut(calls[1..][1..], t)
  {
  }

  lemma CutStep(os: seq<u64>, i: nat, t: nat)
    requires 1 <= i <= |os| && t < Highest(CallsFrom(os, i))
    ensures i < |os| && !DueBefore(os, i, t) ==>
              t < Highest(CallsFrom(os, i + 1)) && FirstCut(CallsFrom(os, i), t) == FirstCut(CallsFrom(os, i + 1), t)
    ensures i == |os| || DueBefore(os, i, t) ==> FirstCut(CallsFrom(os, i), t) == i
  {
    CallsStep(os, i);
    var calls := CallsFrom(os, i);
    if i < |os| && os[i] != os[i - 1] {
      hide CallsFrom, FirstCut, Highest;
      FirstCutTwo(calls, t);
    } else {
      hide CallsFrom;
    }
  }

  lemma {:induction false} CutExactly(os: seq<u64>, i: nat, t: nat)
    requires 1 <= i <= |os| && t < Highest(CallsFrom(os, i))
    ensures var cut := FirstCut(CallsFrom(os, i), t);
            && i <= cut <= |os|
            && (forall j :: i <= j < cut ==> !DueBefore(os, j, t))
            && (cut < |os| ==> DueBefore(os, cut, t))
    decreases |os| - i
  {
    hide CallsFrom, FirstCut, Highest, DueBefore;
    CutStep(os, i, t);
    if i < |os| && !DueBefore(os, i, t) {
      CutExactly(os, i + 1, t);
    }
  }

  /** In whatever order the records come, grid time `k * s` is sampled just before the first record at which it is
      due, or at the end. */
  lemma SampledBefore(rs: seq<TraceRecord>, scale: u64, k: nat)
    requires scale > 0 && rs != [] && k * scale <= MaxOffset(Offsets(rs))
    ensures k < |Samples(rs, scale)|
    ensures var os, s := Offsets(rs), Samples(rs, scale)[k];
            && s.time == k * scale && 1 <= s.cut <= |rs|
            && (forall j :: 1 <= j < s.cut ==> !DueBefore(os, j, s.time))
            && (s.cut < |rs| ==> DueBefore(os, s.cut, s.time))
  {
    hide RunCalls, GridFrom, CallsFrom, Offset, FirstCut, MaxOffset, Highest, Again, DueBefore;
    var os := Offsets(rs);
    SamplesExactly(rs, scale);
    GridTimes(Calls(os), 0, scale, k);
    CutExactly(os, 1, k * scale);
  }

  lemma DivBounds(m: nat, s: nat)
    requires s > 0
    ensures m / s * s <= m < (m / s + 1) * s
  {
    assert m == m / s * s + m % s;
  }

  lemma ReachingStep(os: seq<u64>, i: nat, top: nat)
    requires 1 <= i < |os|
    ensures Reaching(CallsFrom(os, i), top) ==
            Reaching(CallsFrom(os, i + 1), top)
            + if os[i] == os[i - 1] then 0 else (if os[i - 1] >= top then 1 else 0) + if os[i] > top then 1 else 0
  {
    CallsStep(os, i);
  }

  lemma {:induction false} NoneReachingExactly(os: seq<u64>, i: nat, top: nat)
    requires 1 <= i <= |os|
    ensures Reaching(CallsFrom(os, i), top) == 0 <==> forall j :: i - 1 <= j < |os| ==> os[j] < top
    decreases |os| - i
  {
    hide CallsFrom, Reaching;
    if i < |os| {
      ReachingStep(os, i, top);
      NoneReachingExactly(os, i + 1, top);
    } else {
      LastReaches(os, top);
    }
  }

  lemma LastReaches(os: seq<u64>, top: nat)
    requires os != []
    ensures Reaching(CallsFrom(os, |os|), top) == if os[|os| - 1] >= top then 1 else 0
  {
    assert CallsFrom(os, |os|)[1..] == [];
  }

  /** From index `lo` on, no offset exceeds `top`, and the offsets equal to it stand together. */
  ghost predicate TopTogether(os: seq<u64>, lo: nat, top: nat) {
    && (forall j :: lo <= j < |os| ==> os[j] <= top)
    && (forall i, j, k :: lo <= i < j < k < |os| && os[i] == top && os[k] == top ==> os[j] == top)
  }

  lemma {:induction false} OneReachingExactly(os: seq<u64>, i: nat, top: nat)
    requires 1 <= i <= |os| && os[i - 1] <= top
    ensures Reaching(CallsFrom(os, i), top) <= 1 <==> TopTogether(os, i - 1, top)
    decreases |os| - i
  {
    hide CallsFrom, Reaching, TopTogether;
    if i == |os| {
      LastReaches(os, top);
      TopTogetherLast(os, top);
    } else {
      ReachingStep(os, i, top);
      TopTogetherStep(os, i, top);
      NoneReachingExactly(os, i + 1, top);
      if os[i] <= top {
        OneReachingExactly(os, i + 1, top);
      }
    }
  }

  lemma TopTogetherLast(os: seq<u64>, top: nat)
    requires os != [] && os[|os| - 1] <= top
    ensures TopTogether(os, |os| - 1, top)
  {
  }

  lemma TopTogetherStep(os: seq<u64>, i: nat, top: nat)
    requires 1 <= i < |os| && os[i - 1] <= top
    ensures TopTogether(os, i - 1, top) <==>
            && os[i] <= top
            && if os[i - 1] == top && os[i] != top then (forall j :: i <= j < |os| ==> os[j] < top)
               else TopTogether(os, i, top)
  {
    if TopTogether(os, i, top) && os[i - 1] == os[i] == top {
      forall a, b, c | i - 1 <= a < b < c < |os| && os[a] == top && os[c] == top
        ensures os[b] == top
      {
        if a == i - 1 && b > i {
          assert os[i] == top;
        }
      }
    }
  }

  /**
   The exact condition for records in any order, including timestamps that run backwards: the samples
   are the grid if and only if no record's offset exceeds the last grid time that leaves room for a
   successor in 64 bits, and the records at that very offset stand together. Otherwise that time is
   sampled again.
   */
  lemma GridExactly(rs: seq<TraceRecord>, scale: u64)
    requires scale > 0 && rs != []
    ensures SampledOnGrid(rs, scale) <==> TopTogether(Offsets(rs), 0, Top(scale))
  {
    hide RunCalls, GridFrom, CallsFrom, FirstCut, MaxOffset, Highest, TopTogether, Reaching,
      Again, AtTop;
    var os := Offsets(rs);
    var calls := Calls(os);
    var top := Top(scale);
    assert os[0] == 0;
    OneReachingExactly(os, 1, top);
    if Reaching(calls, top) <= 1 {
      SamplesAreGrid(rs, scale);
    } else {
      SamplesExactly(rs, scale);
      var n := MaxOffset(os) / scale + 1;
      DivBounds(MaxOffset(os), scale);
      GridTimes(calls, 0, scale, n);
      GridTimes(calls, 0, scale, n - 1);
    }
  }

  /** The grid is not always met: with a scale of 2^63 and a record 2^63+1 later than the first, time 2^63 is
      sampled twice, once before and once after that record. */
  lemma LastTimeRepeats(rs: seq<TraceRecord>)
    requires |rs| == 2 && rs[0].Hdr().timestampNs == 0 && rs[1].Hdr().timestampNs == 0x8000_0000_0000_0001
    ensures var s: u64 := 0x8000_0000_0000_0000;
            Samples(rs, s) == [Sample(0, 1), Sample(s, 1), Sample(s, 2)] && !SampledOnGrid(rs, s)
  {
    var s: u64 := 0x8000_0000_0000_0000;
    var m: u64 := 0x8000_0000_0000_0001;
    var os := Offsets(rs);
    assert os == [0, m];
    var calls := Calls(os);
    assert calls == [Call(1, 1), Call(m, 1), Call(m + 1, 2)] by {
      assert CallsFrom(os, 2) == [Call(m + 1, 2)];
    }
    assert RunCalls(calls[2..], s, s) == [Sample(s, 2)];
    assert RunCalls(calls[1..], s, s) == [Sample(s, 1), Sample(s, 2)];
    assert RunCalls(calls, 0, s) == [Sample(0, 1), Sample(s, 1), Sample(s, 2)];
    GridExactly(rs, s);
  }

  /** A caller's check that is enough: the largest offset plus the scale still fits. */
  lemma GridWhenRoom(rs: seq<TraceRecord>, scale: u64)
    requires scale > 0 && rs != [] && MaxOffset(Offsets(rs)) + scale < U64_SIZE
    ensures SampledOnGrid(rs, scale)
  {
    hide SampledOnGrid, MaxOffset, Top, LastFitting, Offset;
    TopIsLast(scale);
    AllBelow(Offsets(rs), MaxOffset(Offsets(rs)));
    GridExactly(rs, scale);
  }

  lemma AllBelow(os: seq<u64>, m: nat)
    requires forall o <- os :: o <= m
    ensures forall j :: 0 <= j < |os| ==> os[j] <= m
  {
    forall j | 0 <= j < |os|
      ensures os[j] <= m
    {
      assert os[j] in os;
    }
  }

  lemma TopIsLast(scale: u64)
    requires scale > 0
    ensures Top(scale) + scale >= U64_SIZE
  {
  }

  // ---------------------------------------------------------------- records in time order

  ghost predicate TimeSorted(rs: seq<TraceRecord>) {
    forall i, j :: 0 <= i < j < |rs| ==> rs[i].Hdr().timestampNs <= rs[j].Hdr().timestampNs
  }

  /** `cut` splits the records into those with offset at most `t` and the later ones. */
  ghost predicate SplitsAt(os: seq<u64>, cut: nat, t: nat) {
    && cut <= |os|
    && (forall i :: 0 <= i < cut ==> os[i] <= t)
    && (forall i :: cut <= i < |os| ==> os[i] > t)
  }

  lemma {:induction false} FirstCutSplits(os: seq<u64>, i: nat, t: nat)
    requires 1 <= i <= |os| && t < Highest(CallsFrom(os, i))
    requires forall j, k :: 0 <= j < k < |os| ==> os[j] <= os[k]
    requires os[i - 1] <= t
    ensures SplitsAt(os, FirstCut(CallsFrom(os, i), t), t)
    decreases |os| - i
  {
    CallsStep(os, i);
    if i < |os| && os[i] != os[i - 1] {
      var calls := CallsFrom(os, i);
      assert calls[1..][0] == Call(os[i], i);
      if os[i] <= t {
        FirstCutSplits(os, i + 1, t);
      }
    } else if i < |os| {
      FirstCutSplits(os, i + 1, t);
    }
  }

  /** For records in time order, the sample at time `t` is taken after exactly the records up to `t`. */
  lemma SortedSamples(rs: seq<TraceRecord>, scale: u64, k: nat)
    requires scale > 0 && rs != [] && TimeSorted(rs) && k < |Samples(rs, scale)|
    requires MaxOffset(Offsets(rs)) <= Top(scale)
    ensures var s := Samples(rs, scale)[k];
            s.time == k * scale && SplitsAt(Offsets(rs), s.cut, s.time)
  {
    hide RunCalls, GridFrom, CallsFrom, FirstCut, MaxOffset, Highest, Reaching;
    var os := Offsets(rs);
    assert TopTogether(os, 0, Top(scale)) by {
      SortedTogether(rs, Top(scale));
    }
    OneReachingExactly(os, 1, Top(scale));
    SamplesAreGrid(rs, scale);
    GridTimes(Calls(os), 0, scale, k);
    SortedOffsets(rs);
    assert os[0] == 0;
    FirstCutSplits(os, 1, k * scale);
  }

  lemma SortedOffsets(rs: seq<TraceRecord>)
    requires TimeSorted(rs)
    ensures var os := Offsets(rs); forall j, k :: 0 <= j < k < |os| ==> os[j] <= os[k]
  {
  }

  lemma SortedTogether(rs: seq<TraceRecord>, top: nat)
    requires TimeSorted(rs) && forall o <- Offsets(rs) :: o <= top
    ensures TopTogether(Offsets(rs), 0, top)
  {
    hide Offset;
    SortedOffsets(rs);
    var os := Offsets(rs);
    AllBelow(os, top);
    forall i, j, k | 0 <= i < j < k < |os| && os[i] == top && os[k] == top
      ensures os[j] == top
    {
      assert os[i] <= os[j] <= os[k];
    }
  }

  /** For records in time order the exact condition is only that the largest offset does not exceed `Top`. */
  lemma SortedGridExactly(rs: seq<TraceRecord>, scale: u64)
    requires scale > 0 && rs != [] && TimeSorted(rs)
    ensures SampledOnGrid(rs, scale) <==> MaxOffset(Offsets(rs)) <= Top(scale)
  {
    hide SampledOnGrid;
    GridExactly(rs, scale);
    if MaxOffset(Offsets(rs)) <= Top(scale) {
      SortedTogether(rs, Top(scale));
    }
  }

  // ---------------------------------------------------------------- the rows, from the records

  /** The depth a row shows: submits after which no record names their command, in all or on one queue that some
      submit went to. */
  ghost predicate RowShows(row: Row, upTo: seq<TraceRecord>) {
    match row
    case GlobalRow(_, depth) => depth == |OpenSubmits(upTo)|
    case QueueRow(_, q, depth) =>
      SubmittedTo(upTo, q.ctrlId, q.qid) && depth == |OpenOn(upTo, q.ctrlId, q.qid)|
  }

  /** Rows ascend by time; at one time the global row comes first, then the queues by controller and queue id. */
  predicate RowBefore(a: Row, b: Row) {
    || a.time < b.time
    || (a.time == b.time
        && b.QueueRow?
        && (a.QueueRow? ==>
              a.queue.ctrlId < b.queue.ctrlId || (a.queue.ctrlId == b.queue.ctrlId && a.queue.qid < b.queue.qid)))
  }

  ghost predicate RowsAscend(rows: seq<Row>) {
    forall i, j :: 0 <= i < j < |rows| ==> RowBefore(rows[i], rows[j])
  }

  /** One sample: rows in ascending order, exactly those that show a depth after the records `rs`. */
  lemma SampleRowsMean(t: u64, rs: seq<TraceRecord>)
    ensures RowsAscend(SampleRows(t, rs))
    ensures forall row :: row in SampleRows(t, rs) <==> row.time == t && RowShows(row, rs)
  {
    hide InFlight, OnQueue, KnownQueues, Ascending, QueueRows, OpenSubmits, OpenOn, SubmittedTo;
    var qs, rows := Ascending(KnownQueues(rs)), SampleRows(t, rs);
    AscendingLists(KnownQueues(rs));
    QueueRowsList(t, qs, rs);
    assert rows == [GlobalRow(t, GlobalDepth(rs))] + QueueRows(t, qs, rs);
    DepthsExactly(rs, 0, 0);
    forall q: QueueKey
      ensures q in qs <==> SubmittedTo(rs, q.ctrlId, q.qid)
      ensures |OnQueue(InFlight(rs), q)| == |OpenOn(rs, q.ctrlId, q.qid)|
    {
      QueueMeans(rs, q);
    }
    forall row: Row
      ensures row in rows <==> row.time == t && RowShows(row, rs)
    {
      if row.QueueRow? && row.queue in qs {
        var i :| 0 <= i < |qs| && qs[i] == row.queue;
        assert rows[1 + i] == QueueRows(t, qs, rs)[i];
      }
    }
  }

  lemma QueueMeans(rs: seq<TraceRecord>, q: QueueKey)
    ensures q in KnownQueues(rs) <==> SubmittedTo(rs, q.ctrlId, q.qid)
    ensures |OnQueue(InFlight(rs), q)| == |OpenOn(rs, q.ctrlId, q.qid)|
  {
    hide OpenOn, InFlight, KnownQueues;
    KnownExactly(rs, q.ctrlId, q.qid);
    DepthsExactly(rs, q.ctrlId, q.qid);
  }

  lemma {:induction false} QueueRowsList(time: u64, qs: seq<QueueKey>, rs: seq<TraceRecord>)
    ensures |QueueRows(time, qs, rs)| == |qs|
    ensures forall i :: 0 <= i < |qs| ==>
              QueueRows(time, qs, rs)[i] == QueueRow(time, qs[i], |OnQueue(InFlight(rs), qs[i])|)
  {
    hide InFlight, OnQueue;
    if qs != [] {
      QueueRowsList(time, qs[1..], rs);
    }
  }

  /** What the analysis shows for records in time order: at each grid time up to the largest offset, once, the
      global depth and the depth of every queue submitted to, after exactly the records up to that time. */
  lemma QueueDepthMeaning(rs: seq<TraceRecord>, scale: u64, k: nat) returns (t: u64, upTo: seq<TraceRecord>)
    requires scale > 0 && rs != [] && TimeSorted(rs)
    requires MaxOffset(Offsets(rs)) <= Top(scale) && k < |Samples(rs, scale)|
    ensures t == k * scale && Samples(rs, scale)[k] == Sample(t, |upTo|)
    ensures RecordsUpTo(rs, t, upTo)
    ensures RowsAscend(SampleRows(t, upTo))
    ensures forall row :: row in SampleRows(t, upTo) <==> row.time == t && RowShows(row, upTo)
  {
    hide Samples, MaxOffset, InFlight, OnQueue, KnownQueues, Ascending, QueueRows, Top;
    SortedSamples(rs, scale, k);
    t := Samples(rs, scale)[k].time;
    upTo := rs[..Samples(rs, scale)[k].cut];
    forall i | 0 <= i < |rs|
      ensures i < |upTo| <==> rs[i].Hdr().timestampNs <= rs[0].Hdr().timestampNs + t
    {
      OffsetIs(rs, i);
      assert Offsets(rs)[i] == Offset(rs, i);
      assert i > 0 ==> rs[0].Hdr().timestampNs <= rs[i].Hdr().timestampNs;
    }
    SampleRowsMean(t, upTo);
  }

  /** `upTo` is the records at most `t` after the first, a prefix. */
  ghost predicate RecordsUpTo(rs: seq<TraceRecord>, t: nat, upTo: seq<TraceRecord>)
    requires rs != []
  {
    && upTo <= rs
    && forall i :: 0 <= i < |rs| ==> (i < |upTo| <==> rs[i].Hdr().timestampNs <= rs[0].Hdr().timestampNs + t)
  }

  // ---------------------------------------------------------------- the whole output

  /** The output is the rows of the samples, one sample after another. */
  lemma {:induction false} RowsIn(samples: seq<Sample>, rs: seq<TraceRecord>, row: Row)
    requires forall s <- samples :: s.cut <= |rs|
    ensures row in Rows(samples, rs) <==>
            exists k :: 0 <= k < |samples| && row in SampleRows(samples[k].time, rs[..samples[k].cut])
  {
    hide SampleRows;
    if samples != [] {
      var rest := samples[1..];
      RowsIn(rest, rs, row);
      if k :| 0 <= k < |rest| && row in SampleRows(rest[k].time, rs[..rest[k].cut]) {
        assert samples[k + 1] == rest[k];
      }
      if k :| 0 <= k < |samples| && row in SampleRows(samples[k].time, rs[..samples[k].cut]) {
        assert k > 0 ==> rest[k - 1] == samples[k];
      }
    }
  }

  lemma {:induction false} RowsAscendOverall(samples: seq<Sample>, rs: seq<TraceRecord>)
    requires forall s <- samples :: s.cut <= |rs|
    requires forall i, j :: 0 <= i < j < |samples| ==> samples[i].time < samples[j].time
    ensures RowsAscend(Rows(samples, rs))
    ensures forall row <- Rows(samples, rs) :: samples != [] && samples[0].time <= row.time
  {
    hide SampleRows, RowShows, Rows;
    if samples == [] {
      NoRows(rs);
    } else {
      var first, rest := SampleRows(samples[0].time, rs[..samples[0].cut]), samples[1..];
      RowsAscendOverall(rest, rs);
      SampleRowsMean(samples[0].time, rs[..samples[0].cut]);
      RowsCons(samples, rs);
      var tail := Rows(rest, rs);
      forall row <- tail
        ensures samples[0].time < row.time
      {
        assert rest[0] == samples[1];
      }
      forall i, j | 0 <= i < j < |first + tail|
        ensures RowBefore((first + tail)[i], (first + tail)[j])
      {
        assert i < |first| ==> first[i] in first;
        assert j >= |first| ==> tail[j - |first|] in tail;
      }
    }
  }

  lemma NoRows(rs: seq<TraceRecord>)
    ensures Rows([], rs) == []
  {
  }

  lemma RowsCons(samples: seq<Sample>, rs: seq<TraceRecord>)
    requires samples != [] && forall s <- samples :: s.cut <= |rs|
    ensures Rows(samples, rs) == SampleRows(samples[0].time, rs[..samples[0].cut]) + Rows(samples[1..], rs)
  {
  }

  /** The row stands at a grid time no later than the last record and shows the depth after exactly the records up
      to its time. */
  ghost predicate RowDue(row: Row, rs: seq<TraceRecord>, scale: u64)
    requires rs != [] && scale > 0
  {
    && row.time % scale == 0
    && (exists i :: 0 <= i < |rs| && rs[0].Hdr().timestampNs + row.time <= rs[i].Hdr().timestampNs)
    && exists upTo :: RecordsUpTo(rs, row.time, upTo) && RowShows(row, upTo)
  }

  /** The whole output for records in time order: in ascending order, exactly the rows that are due. */
  lemma OutputExactly(rs: seq<TraceRecord>, scale: u64)
    requires scale > 0 && rs != [] && TimeSorted(rs) && MaxOffset(Offsets(rs)) <= Top(scale)
    ensures var rows := Rows(Samples(rs, scale), rs);
            RowsAscend(rows) && forall row :: row in rows <==> RowDue(row, rs, scale)
  {
    hide Samples, MaxOffset, Top, RowsAscend, Rows, SampleRows, RowDue;
    var samples := Samples(rs, scale);
    SortedGridExactly(rs, scale);
    forall i, j | 0 <= i < j < |samples|
      ensures samples[i].time < samples[j].time
    {
      Multiples(i, j, scale);
    }
    RowsAscendOverall(samples, rs);
    forall row: Row
      ensures row in Rows(samples, rs) <==> RowDue(row, rs, scale)
    {
      RowsIn(samples, rs, row);
      DueMeans(rs, scale, row);
    }
  }

  lemma Multiples(i: nat, j: nat, s: nat)
    requires s > 0 && i < j
    ensures i * s < j * s
  {
  }

  lemma PrefixUnique(rs: seq<TraceRecord>, t: nat, a: seq<TraceRecord>, b: seq<TraceRecord>)
    requires rs != [] && RecordsUpTo(rs, t, a) && RecordsUpTo(rs, t, b)
    ensures a == b
  {
    assert a == rs[..|a|] && b == rs[..|b|];
    var i := if |a| < |b| then |a| else |b|;
    assert i < |rs| ==> (i < |a| <==> rs[i].Hdr().timestampNs <= rs[0].Hdr().timestampNs + t);
  }

  lemma LargestOffset(rs: seq<TraceRecord>, t: nat)
    requires rs != [] && TimeSorted(rs)
    ensures t <= MaxOffset(Offsets(rs)) <==>
            exists i :: 0 <= i < |rs| && rs[0].Hdr().timestampNs + t <= rs[i].Hdr().timestampNs
  {
    hide MaxOffset;
    var os := Offsets(rs);
    forall i | 0 <= i < |rs|
      ensures os[i] == rs[i].Hdr().timestampNs - rs[0].Hdr().timestampNs
    {
      OffsetIs(rs, i);
      assert i > 0 ==> rs[0].Hdr().timestampNs <= rs[i].Hdr().timestampNs;
    }
    AllBelow(os, MaxOffset(os));
    var m :| 0 <= m < |os| && os[m] == MaxOffset(os);
  }

  lemma DueMeans(rs: seq<TraceRecord>, scale: u64, row: Row)
    requires scale > 0 && rs != [] && TimeSorted(rs) && MaxOffset(Offsets(rs)) <= Top(scale)
    requires SampledOnGrid(rs, scale)
    ensures var samples := Samples(rs, scale);
            RowDue(row, rs, scale) <==>
            exists k :: 0 <= k < |samples| && row in SampleRows(samples[k].time, rs[..samples[k].cut])
  {
    hide Samples, MaxOffset, Top, SampleRows, RowShows, RecordsUpTo, TimeSorted;
    var samples := Samples(rs, scale);
    LargestOffset(rs, row.time);
    forall k | 0 <= k < |samples|
      ensures row in SampleRows(samples[k].time, rs[..samples[k].cut])
              <==> row.time == k * scale && RowDue(row, rs, scale)
    {
      var t, upTo := QueueDepthMeaning(rs, scale, k);
      UpToIs(rs, t, upTo);
      MultipleInRange(k, MaxOffset(Offsets(rs)), scale);
      forall other | RecordsUpTo(rs, t, other)
        ensures other == upTo
      {
        PrefixUnique(rs, t, upTo, other);
      }
    }
    if RowDue(row, rs, scale) {
      MultipleOf(row.time, scale);
      var k: nat := row.time / scale;
      QuotientMonotone(row.time, MaxOffset(Offsets(rs)), scale);
      assert row in SampleRows(samples[k].time, rs[..samples[k].cut]);
    }
  }

  lemma UpToIs(rs: seq<TraceRecord>, t: nat, upTo: seq<TraceRecord>)
    requires rs != [] && RecordsUpTo(rs, t, upTo)
    ensures |upTo| <= |rs| && upTo == rs[..|upTo|]
  {
  }

  lemma MultipleOf(t: nat, s: nat)
    requires s > 0 && t % s == 0
    ensures t / s * s == t
  {
  }

  lemma QuotientMonotone(a: nat, b: nat, s: nat)
    requires s > 0 && a <= b
    ensures a / s <= b / s
  {
    DivBounds(a, s);
    DivBounds(b, s);
    if a / s > b / s {
      Multiples(b / s, a / s, s);
      assert (b / s + 1) * s <= a / s * s by {
        if b / s + 1 < a / s {
          Multiples(b / s + 1, a / s, s);
        }
      }
    }
  }

  /** A grid time with a sample is a multiple of the scale, at most the largest offset. */
  lemma MultipleInRange(k: nat, m: nat, s: nat)
    requires s > 0 && k < m / s + 1
    ensures k * s % s == 0 && k * s <= m
  {
    DivBounds(m, s);
    if k < m / s {
      Multiples(k, m / s, s);
    }
    DivUnique(k * s, k, 0, s);
  }
}
