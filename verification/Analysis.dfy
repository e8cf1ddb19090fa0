/**
 What the three analyzers of `tracing/nvme-trace/src/analyze.rs` count: commands in
 flight, by key, over a list of trace records.
 */
module Analysis {
  import opened Bytes
  import opened Records

  datatype QueueKey = QueueKey(ctrlId: byte, qid: byte)

  datatype CommandKey = CommandKey(ctrlId: byte, qid: byte, cid: u16) {
    function Queue(): QueueKey {
      QueueKey(ctrlId, qid)
    }
  }

  function KeyOf(r: TraceRecord): CommandKey {
    CommandKey(r.Hdr().ctrlId, r.Hdr().qid, r.Hdr().cid)
  }

  datatype Warning = DuplicateSubmit(key: CommandKey) | UnmatchedCompletion(key: CommandKey)

  /** The commands submitted and not completed since. */
  function InFlight(rs: seq<TraceRecord>): (s: set<CommandKey>) {
    if rs == [] then {}
    else
      var before := InFlight(rs[..|rs| - 1]);
      var r := rs[|rs| - 1];
      if r.Submit? then before + {KeyOf(r)} else before - {KeyOf(r)}
  }

  /** Submitting a command that is in flight, or completing one that is not. */
  predicate Odd(before: seq<TraceRecord>, r: TraceRecord) {
    r.Submit? <==> KeyOf(r) in InFlight(before)
  }

  function WarningFor(before: seq<TraceRecord>, r: TraceRecord): seq<Warning> {
    if !Odd(before, r) then []
    else if r.Submit? then [DuplicateSubmit(KeyOf(r))]
    else [UnmatchedCompletion(KeyOf(r))]
  }

  /** The warnings of a record list. */
  function Warnings(rs: seq<TraceRecord>): (ws: seq<Warning>) {
    if rs == [] then []
    else Warnings(rs[..|rs| - 1]) + WarningFor(rs[..|rs| - 1], rs[|rs| - 1])
  }

  /** The queues submitted to. */
  function KnownQueues(rs: seq<TraceRecord>): (s: set<QueueKey>) {
    if rs == [] then {}
    else
      var r := rs[|rs| - 1];
      KnownQueues(rs[..|rs| - 1]) + if r.Submit? then {KeyOf(r).Queue()} else {}
  }

  function OnQueue(s: set<CommandKey>, q: QueueKey): set<CommandKey> {
    set k <- s | k.Queue() == q
  }

  function GlobalDepth(rs: seq<TraceRecord>): nat {
    |InFlight(rs)|
  }

  function QueueDepth(rs: seq<TraceRecord>, q: QueueKey): nat {
    |OnQueue(InFlight(rs), q)|
  }

  lemma Snoc(rs: seq<TraceRecord>, r: TraceRecord)
    ensures InFlight(rs + [r]) == if r.Submit? then InFlight(rs) + {KeyOf(r)} else InFlight(rs) - {KeyOf(r)}
    ensures Warnings(rs + [r]) == Warnings(rs) + WarningFor(rs, r)
  {
    assert (rs + [r])[..|rs|] == rs;
  }

  lemma SnocKnown(rs: seq<TraceRecord>, r: TraceRecord)
    ensures KnownQueues(rs + [r]) == KnownQueues(rs) + if r.Submit? then {KeyOf(r).Queue()} else {}
  {
    assert (rs + [r])[..|rs|] == rs;
  }

  lemma OnQueueMoves(s: set<CommandKey>, k: CommandKey, q: QueueKey)
    ensures |OnQueue(s + {k}, q)| == if k in s || k.Queue() != q then |OnQueue(s, q)| else |OnQueue(s, q)| + 1
    ensures |OnQueue(s - {k}, q)| == if k !in s || k.Queue() != q then |OnQueue(s, q)| else |OnQueue(s, q)| - 1
  {
    var own := OnQueue(s, q);
    if k.Queue() == q {
      assert k in s <==> k in own;
      assert OnQueue(s + {k}, q) == own + {k};
      assert OnQueue(s - {k}, q) == own - {k};
      CountMoves(own, k);
    } else {
      assert OnQueue(s + {k}, q) == own == OnQueue(s - {k}, q);
    }
  }

  /** How one record moves the depths. */
  lemma SnocGlobalDepth(rs: seq<TraceRecord>, r: TraceRecord)
    ensures GlobalDepth(rs + [r]) ==
            if Odd(rs, r) then GlobalDepth(rs) else if r.Submit? then GlobalDepth(rs) + 1 else GlobalDepth(rs) - 1
  {
    hide InFlight, Warnings, WarningFor;
    Snoc(rs, r);
    CountMoves(InFlight(rs), KeyOf(r));
  }

  lemma CountMoves(s: set<CommandKey>, k: CommandKey)
    ensures |s + {k}| == if k in s then |s| else |s| + 1
    ensures |s - {k}| == if k in s then |s| - 1 else |s|
  {
    if k in s {
      assert s + {k} == s;
    } else {
      assert s - {k} == s;
    }
  }

  lemma SnocQueueDepth(rs: seq<TraceRecord>, r: TraceRecord, q: QueueKey)
    ensures QueueDepth(rs + [r], q) ==
            if Odd(rs, r) || KeyOf(r).Queue() != q then QueueDepth(rs, q)
            else if r.Submit? then QueueDepth(rs, q) + 1 else QueueDepth(rs, q) - 1
  {
    hide InFlight, OnQueue, Warnings, WarningFor;
    Snoc(rs, r);
    OnQueueMoves(InFlight(rs), KeyOf(r), q);
  }

  // ---------------------------------------------------------------- what being in flight means

  /** The two records name the same command: controller, queue and command id agree. */
  predicate SameCommand(a: TraceRecord, b: TraceRecord) {
    a.Hdr().ctrlId == b.Hdr().ctrlId && a.Hdr().qid == b.Hdr().qid && a.Hdr().cid == b.Hdr().cid
  }

  lemma KeysAreCommands(a: TraceRecord, b: TraceRecord)
    ensures KeyOf(a) == KeyOf(b) <==> SameCommand(a, b)
    ensures KeyOf(a).Queue() == KeyOf(b).Queue() <==> a.Hdr().ctrlId == b.Hdr().ctrlId && a.Hdr().qid == b.Hdr().qid
  {
  }

  /** Record `i` is a submit and no later record names its command. */
  predicate Open(rs: seq<TraceRecord>, i: nat)
    requires i < |rs|
  {
    rs[i].Submit? && forall j :: i < j < |rs| ==> !SameCommand(rs[j], rs[i])
  }

  predicate OnQueueOf(r: TraceRecord, ctrlId: byte, qid: byte) {
    r.Hdr().ctrlId == ctrlId && r.Hdr().qid == qid
  }

  lemma OpenEarlier(rs: seq<TraceRecord>, i: nat)
    requires i < |rs| - 1
    ensures Open(rs, i) <==> Open(rs[..|rs| - 1], i) && !SameCommand(rs[|rs| - 1], rs[i])
  {
    var before := rs[..|rs| - 1];
    assert forall j :: i < j < |before| ==> before[j] == rs[j];
  }

  /** A command is in flight exactly when the last record that names it is a submit. */
  lemma {:induction false} InFlightExactly(rs: seq<TraceRecord>, ctrlId: byte, qid: byte, cid: u16)
    ensures CommandKey(ctrlId, qid, cid) in InFlight(rs) <==>
            exists i :: 0 <= i < |rs| && Open(rs, i) && OnQueueOf(rs[i], ctrlId, qid) && rs[i].Hdr().cid == cid
  {
    hide Open;
    if rs != [] {
      var n := |rs| - 1;
      var before := rs[..n];
      InFlightExactly(before, ctrlId, qid, cid);
      LastOpen(rs);
      forall i | 0 <= i < n
        ensures before[i] == rs[i] && (Open(rs, i) <==> Open(before, i) && !SameCommand(rs[n], rs[i]))
      {
        OpenEarlier(rs, i);
      }
    }
  }

  lemma LastOpen(rs: seq<TraceRecord>)
    requires rs != []
    ensures Open(rs, |rs| - 1) <==> rs[|rs| - 1].Submit?
  {
  }

  /** Some submit went to the queue. */
  ghost predicate SubmittedTo(rs: seq<TraceRecord>, ctrlId: byte, qid: byte) {
    exists i :: 0 <= i < |rs| && rs[i].Submit? && OnQueueOf(rs[i], ctrlId, qid)
  }

  /** The known queues are those some submit went to. */
  lemma {:induction false} KnownExactly(rs: seq<TraceRecord>, ctrlId: byte, qid: byte)
    ensures QueueKey(ctrlId, qid) in KnownQueues(rs) <==> SubmittedTo(rs, ctrlId, qid)
  {
    if rs != [] {
      var n := |rs| - 1;
      KnownExactly(rs[..n], ctrlId, qid);
      assert forall i :: 0 <= i < n ==> rs[..n][i] == rs[i];
    }
  }

  function OpenSubmits(rs: seq<TraceRecord>): (s: set<nat>) {
    set i | 0 <= i < |rs| && Open(rs, i)
  }

  function OpenOn(rs: seq<TraceRecord>, ctrlId: byte, qid: byte): (s: set<nat>) {
    set i | 0 <= i < |rs| && Open(rs, i) && OnQueueOf(rs[i], ctrlId, qid)
  }

  /** Records with different keys are as many as their keys. */
  lemma {:induction false} KeysSize(rs: seq<TraceRecord>, s: set<nat>, keys: set<CommandKey>)
    requires forall i <- s :: i < |rs|
    requires forall i, j :: i in s && j in s && i != j ==> KeyOf(rs[i]) != KeyOf(rs[j])
    requires keys == set i | i in s :: KeyOf(rs[i])
    ensures |keys| == |s|
    decreases |s|
  {
    hide KeyOf;
    if s == {} {
      assert keys == {};
    } else {
      var x :| x in s;
      var rest := s - {x};
      var restKeys := set i | i in rest :: KeyOf(rs[i]);
      assert keys == restKeys + {KeyOf(rs[x])};
      KeysSize(rs, rest, restKeys);
    }
  }

  lemma OpenDiffer(rs: seq<TraceRecord>, i: nat, j: nat)
    requires i < |rs| && j < |rs| && i != j && Open(rs, i) && Open(rs, j)
    ensures KeyOf(rs[i]) != KeyOf(rs[j])
  {
  }

  /** The depths count submits: those after which no record names their command, in all and on each queue. */
  lemma DepthsExactly(rs: seq<TraceRecord>, ctrlId: byte, qid: byte)
    ensures GlobalDepth(rs) == |OpenSubmits(rs)|
    ensures QueueDepth(rs, QueueKey(ctrlId, qid)) == |OpenOn(rs, ctrlId, qid)|
  {
    hide Open, InFlight;
    forall i, j | i in OpenSubmits(rs) && j in OpenSubmits(rs) && i != j
      ensures KeyOf(rs[i]) != KeyOf(rs[j])
    {
      OpenDiffer(rs, i, j);
    }
    var keys := set i | i in OpenSubmits(rs) :: KeyOf(rs[i]);
    var onQueue := set i | i in OpenOn(rs, ctrlId, qid) :: KeyOf(rs[i]);
    KeysSize(rs, OpenSubmits(rs), keys);
    KeysSize(rs, OpenOn(rs, ctrlId, qid), onQueue);
    forall k: CommandKey
      ensures k in InFlight(rs) <==> k in keys
      ensures k in OnQueue(InFlight(rs), QueueKey(ctrlId, qid)) <==> k in onQueue
    {
      InFlightExactly(rs, k.ctrlId, k.qid, k.cid);
    }
    assert InFlight(rs) == keys && OnQueue(InFlight(rs), QueueKey(ctrlId, qid)) == onQueue;
  }

  /** The warning for record `k`: a submit of a command whose last record before was a submit, or a completion of
      one whose last record before was not; it names controller, queue and command. */
  lemma WarningsExactly(rs: seq<TraceRecord>, k: nat)
    requires k < |rs|
    ensures var h := rs[k].Hdr();
            var key := CommandKey(h.ctrlId, h.qid, h.cid);
            var pending := exists i :: 0 <= i < k && Open(rs[..k], i) && SameCommand(rs[i], rs[k]);
            Warnings(rs[..k + 1]) == Warnings(rs[..k])
            + if rs[k].Submit? && pending then [DuplicateSubmit(key)]
              else if rs[k].Complete? && !pending then [UnmatchedCompletion(key)]
              else []
    ensures Warnings(rs[..0]) == []
  {
    hide Open, InFlight, Warnings;
    var h := rs[k].Hdr();
    WarningsAt(rs, k);
    WarningsAt(rs, 0);
    InFlightExactly(rs[..k], h.ctrlId, h.qid, h.cid);
    assert forall i :: 0 <= i < k ==> rs[..k][i] == rs[i];
  }

  lemma {:induction false} QueuesKnown(rs: seq<TraceRecord>)
    ensures forall k <- InFlight(rs) :: k.Queue() in KnownQueues(rs)
  {
    if rs != [] {
      QueuesKnown(rs[..|rs| - 1]);
    }
  }

  // ---------------------------------------------------------------- conservation of depth

  ghost function SumOver(qs: set<QueueKey>, s: set<CommandKey>): nat {
    if qs == {} then 0
    else
      var q := PickQueue(qs);
      |OnQueue(s, q)| + SumOver(qs - {q}, s)
  }

  ghost function PickQueue(qs: set<QueueKey>): (q: QueueKey)
    requires qs != {}
    ensures q in qs
  {
    var q :| q in qs;
    q
  }

  lemma {:induction false} SumPartitions(qs: set<QueueKey>, s: set<CommandKey>)
    ensures SumOver(qs, s) == |set k <- s | k.Queue() in qs|
  {
    var all := set k <- s | k.Queue() in qs;
    if qs == {} {
      assert all == {};
    } else {
      var q := PickQueue(qs);
      var rest := set k <- s | k.Queue() in qs - {q};
      SumPartitions(qs - {q}, s);
      assert all == OnQueue(s, q) + rest && OnQueue(s, q) !! rest;
    }
  }

  /** The queue depths of the known queues add up to the global depth. */
  lemma DepthsAddUp(rs: seq<TraceRecord>)
    ensures SumOver(KnownQueues(rs), InFlight(rs)) == GlobalDepth(rs)
  {
    QueuesKnown(rs);
    SumPartitions(KnownQueues(rs), InFlight(rs));
    assert InFlight(rs) == set k <- InFlight(rs) | k.Queue() in KnownQueues(rs);
  }

  function Submits(rs: seq<TraceRecord>): nat {
    if rs == [] then 0 else Submits(rs[..|rs| - 1]) + if rs[|rs| - 1].Submit? then 1 else 0
  }

  function DuplicateSubmits(rs: seq<TraceRecord>): nat {
    if rs == [] then 0
    else
      var before, r := rs[..|rs| - 1], rs[|rs| - 1];
      DuplicateSubmits(before) + if r.Submit? && Odd(before, r) then 1 else 0
  }

  function MatchedCompletions(rs: seq<TraceRecord>): nat {
    if rs == [] then 0
    else
      var before, r := rs[..|rs| - 1], rs[|rs| - 1];
      MatchedCompletions(before) + if r.Complete? && !Odd(before, r) then 1 else 0
  }

  /** Every submit is a duplicate, has been completed, or is still in flight. */
  lemma {:induction false} SubmitsBalance(rs: seq<TraceRecord>)
    ensures Submits(rs) == DuplicateSubmits(rs) + MatchedCompletions(rs) + GlobalDepth(rs)
  {
    if rs != [] {
      var before, r := rs[..|rs| - 1], rs[|rs| - 1];
      assert before + [r] == rs;
      SubmitsBalance(before);
      SnocGlobalDepth(before, r);
    }
  }

  lemma WarningsAt(rs: seq<TraceRecord>, i: nat)
    requires i < |rs|
    ensures Warnings(rs[..i + 1]) == Warnings(rs[..i]) + WarningFor(rs[..i], rs[i])
    ensures i == 0 ==> Warnings(rs[..i]) == []
  {
    assert rs[..i + 1] == rs[..i] + [rs[i]];
    Snoc(rs[..i], rs[i]);
  }

  // ---------------------------------------------------------------- ordered keys

  predicate IsLeast(b: nat, s: set<nat>) {
    b in s && forall x <- s :: b <= x
  }

  lemma {:induction false} LeastExists(s: set<nat>) returns (b: nat)
    requires s != {}
    ensures IsLeast(b, s)
    decreases |s|
  {
    b :| b in s;
    var rest := s - {b};
    if rest == {} {
      assert s == {b};
    } else {
      hide IsLeast;
      var least := LeastExists(rest);
      LeastOfTwo(s, b, least);
      b := if least < b then least else b;
    }
  }

  lemma LeastOfTwo(s: set<nat>, b: nat, least: nat)
    requires b in s && IsLeast(least, s - {b})
    ensures IsLeast(if least < b then least else b, s)
  {
    var smaller := if least < b then least else b;
    forall x <- s
      ensures smaller <= x
    {
      if x != b {
        assert x in s - {b};
      }
    }
  }

  // ---------------------------------------------------------------- time

  function SaturatingSub(a: nat, b: nat): nat {
    if a < b then 0 else a - b
  }

  /** Nanoseconds after the first record; records before it count as 0. */
  function Offset(rs: seq<TraceRecord>, i: nat): (o: u64)
    requires i < |rs|
  {
    SaturatingSub(rs[i].Hdr().timestampNs, rs[0].Hdr().timestampNs)
  }

  function Offsets(rs: seq<TraceRecord>): (os: seq<u64>)
    ensures |os| == |rs|
    ensures forall i :: 0 <= i < |rs| ==> os[i] == Offset(rs, i)
  {
    seq(|rs|, i requires 0 <= i < |rs| => Offset(rs, i))
  }

  lemma OffsetIs(rs: seq<TraceRecord>, i: nat)
    requires i < |rs|
    ensures Offset(rs, i) == SaturatingSub(rs[i].Hdr().timestampNs, rs[0].Hdr().timestampNs)
  {
  }
}
