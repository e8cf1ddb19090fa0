/**
 The throughput analysis of `tracing/nvme-trace/src/analyze.rs`: completed bytes by
 time bucket, each completion charged with the latest submit of its command.
 */
module Throughput {
  import opened Bytes
  import opened Records
  import opened Logs
  import opened Analysis
  import opened Arith

  datatype Direction = Read | Write | Other

  function DirectionOf(opcode: byte): Direction {
    if opcode == 1 then Write else if opcode == 2 then Read else Other
  }

  datatype Command = Command(dataLen: u32, direction: Direction)

  datatype Bucket = Bucket(readBytes: nat, writeBytes: nat) {
    function Add(c: Command): Bucket {
      match c.direction
      case Read => Bucket(readBytes + c.dataLen, writeBytes)
      case Write => Bucket(readBytes, writeBytes + c.dataLen)
      case Other => this
    }

    function Bytes(d: Direction): nat {
      match d
      case Read => readBytes
      case Write => writeBytes
      case Other => 0
    }
  }

  predicate SqesOk(rs: seq<TraceRecord>) {
    forall r <- rs :: r.Submit? ==> |r.submit.sqe| == SQE_LEN
  }

  function CommandOf(r: TraceRecord): Command
    requires r.Submit? && |r.submit.sqe| == SQE_LEN
  {
    Command(r.submit.dataLen, DirectionOf(r.submit.sqe[0]))
  }

  /** The latest submit of a command in flight. */
  function Latest(rs: seq<TraceRecord>, k: CommandKey): (c: Command)
    requires SqesOk(rs) && k in InFlight(rs)
  {
    var r := rs[|rs| - 1];
    if KeyOf(r) == k then CommandOf(r) else Latest(rs[..|rs| - 1], k)
  }

  /** The command charged is the last record that names it, a submit: its length, and its direction by the first
      command byte, 2 for a read and 1 for a write. */
  lemma {:induction false} LatestMeans(rs: seq<TraceRecord>, i: nat)
    requires SqesOk(rs) && i < |rs| && Open(rs, i)
    ensures var key, s := KeyOf(rs[i]), rs[i].submit;
            && |s.sqe| == 64 && key in InFlight(rs) && Latest(rs, key).dataLen == s.dataLen
            && (Latest(rs, key).direction == Read <==> s.sqe[0] == 2)
            && (Latest(rs, key).direction == Write <==> s.sqe[0] == 1)
  {
    hide KeyOf;
    var before := rs[..|rs| - 1];
    assert rs[i] in rs;
    if i < |rs| - 1 {
      OpenEarlier(rs, i);
      KeysAreCommands(rs[|rs| - 1], rs[i]);
      assert before[i] == rs[i];
      LatestMeans(before, i);
    }
  }

  /** A completion of a command in flight. */
  predicate Matches(before: seq<TraceRecord>, r: TraceRecord) {
    r.Complete? && KeyOf(r) in InFlight(before)
  }

  function BucketOf(offset: nat, scale: nat): (b: nat)
    requires scale > 0
  {
    offset / scale * scale
  }

  function Default(m: map<nat, Bucket>, b: nat): Bucket {
    if b in m then m[b] else Bucket(0, 0)
  }

  /** The buckets of a record list, with offsets counted from `base`. */
  function Buckets(rs: seq<TraceRecord>, base: u64, scale: u64): (m: map<nat, Bucket>)
    requires SqesOk(rs) && scale > 0
  {
    if rs == [] then map[]
    else
      var before, r := rs[..|rs| - 1], rs[|rs| - 1];
      var m := Buckets(before, base, scale);
      if !Matches(before, r) then m
      else
        var b := BucketOf(SaturatingSub(r.Hdr().timestampNs, base), scale);
        m[b := Default(m, b).Add(Latest(before, KeyOf(r)))]
  }

  /** The map of commands in flight: overwriting a duplicate keeps the key set, and the latest submit. */
  ghost predicate FlightMatch(m: map<CommandKey, Command>, rs: seq<TraceRecord>)
    requires SqesOk(rs)
  {
    m.Keys == InFlight(rs) && forall k <- m :: m[k] == Latest(rs, k)
  }

  lemma FlightMatchNext(m: map<CommandKey, Command>, rs: seq<TraceRecord>, r: TraceRecord)
    requires SqesOk(rs + [r]) && SqesOk(rs) && FlightMatch(m, rs)
    ensures r.Submit? ==> r in rs + [r] && FlightMatch(m[KeyOf(r) := CommandOf(r)], rs + [r])
    ensures r.Complete? ==> FlightMatch(m - {KeyOf(r)}, rs + [r])
  {
    var t := rs + [r];
    assert t[..|rs|] == rs && t[|rs|] == r;
    Snoc(rs, r);
    assert r in t;
  }

  datatype Row = Row(time: nat, bucket: Bucket, duration: nat)

  /** Saturating difference, clamped to 1..=scale. */
  function Duration(bucket: nat, scale: u64, lastOffset: nat): (d: nat)
    requires scale > 0
  {
    var span := SaturatingSub(lastOffset, bucket);
    if span < 1 then 1 else if span > scale then scale else span
  }

  /** One row for each bucket, in ascending order of time. */
  ghost predicate RowsList(rows: seq<Row>, m: map<nat, Bucket>, scale: u64, lastOffset: nat)
    requires scale > 0
  {
    && (forall i, j :: 0 <= i < j < |rows| ==> rows[i].time < rows[j].time)
    && (forall i :: 0 <= i < |rows| ==>
          rows[i].time in m && rows[i] == Row(rows[i].time, m[rows[i].time], Duration(rows[i].time, scale, lastOffset)))
    && (forall b <- m :: exists i :: 0 <= i < |rows| && rows[i].time == b)
  }

  function LastOffset(rs: seq<TraceRecord>, base: u64): (o: nat)
    ensures forall i :: 0 <= i < |rs| ==> SaturatingSub(rs[i].Hdr().timestampNs, base) <= o
    ensures rs != [] ==> exists i :: 0 <= i < |rs| && SaturatingSub(rs[i].Hdr().timestampNs, base) == o
  {
    if rs == [] then 0
    else
      var before, o := LastOffset(rs[..|rs| - 1], base), SaturatingSub(rs[|rs| - 1].Hdr().timestampNs, base);
      if before < o then o else before
  }

  function BaseOf(rs: seq<TraceRecord>): u64 {
    if rs == [] then 0 else rs[0].Hdr().timestampNs
  }

  /** The ghost result exposes the loop's own map of commands in flight. */
  method AnalyzeThroughput(records: seq<TraceRecord>, scale: u64, log: Log<Warning>)
      returns (rows: seq<Row>, ghost left: map<CommandKey, Command>)
    requires scale > 0 && SqesOk(records)
    modifies log
    ensures RowsList(rows, Buckets(records, BaseOf(records), scale), scale, LastOffset(records, BaseOf(records)))
    ensures FlightMatch(left, records)
    ensures log.entries == old(log.entries) + Warnings(records)
  {
    hide FlightMatch, Buckets, RowsList, Warnings, WarningFor, InFlight, Latest, LastOffset, BucketOf;
    var inFlight: map<CommandKey, Command> := map[];
    var bytesByBucket: map<nat, Bucket> := map[];
    var lastOffset: nat := 0;
    var baseTs := BaseOf(records);
    EmptyBuckets(baseTs, scale);
    for i := 0 to |records|
      invariant SqesOk(records[..i]) && FlightMatch(inFlight, records[..i])
      invariant bytesByBucket == Buckets(records[..i], baseTs, scale)
      invariant lastOffset == LastOffset(records[..i], baseTs)
      invariant log.entries == old(log.entries) + Warnings(records[..i])
    {
      var record := records[i];
      ghost var rs := records[..i];
      assert records[..i + 1] == rs + [record];
      SnocAll(rs, record, inFlight, baseTs, scale);
      var offset := SaturatingSub(record.Hdr().timestampNs, baseTs);
      lastOffset := if lastOffset < offset then offset else lastOffset;
      var key := KeyOf(record);
      match record {
        case Submit(_) =>
          if key in inFlight {
            log.Add(DuplicateSubmit(key));
          }
          inFlight := inFlight[key := CommandOf(record)];
        case Complete(_) =>
          if key !in inFlight {
            log.Add(UnmatchedCompletion(key));
            assert inFlight - {key} == inFlight;
          } else {
            var command := inFlight[key];
            inFlight := inFlight - {key};
            var bucket := BucketOf(offset, scale);
            bytesByBucket := bytesByBucket[bucket := Default(bytesByBucket, bucket).Add(command)];
          }
      }
    }
    assert records[..|records|] == records;
    left := inFlight;
    rows := WriteRows(bytesByBucket, scale, lastOffset);
  }

  lemma EmptyBuckets(base: u64, scale: u64)
    requires scale > 0
    ensures FlightMatch(map[], []) && Buckets([], base, scale) == map[]
    ensures LastOffset([], base) == 0 && Warnings([]) == []
  {
  }

  /** Everything one record changes. */
  lemma SnocAll(rs: seq<TraceRecord>, r: TraceRecord, m: map<CommandKey, Command>, base: u64, scale: u64)
    requires scale > 0 && SqesOk(rs) && FlightMatch(m, rs) && (r.Submit? ==> |r.submit.sqe| == SQE_LEN)
    ensures SqesOk(rs + [r])
    ensures r.Submit? ==> FlightMatch(m[KeyOf(r) := CommandOf(r)], rs + [r])
    ensures r.Complete? ==> FlightMatch(m - {KeyOf(r)}, rs + [r])
    ensures var o := SaturatingSub(r.Hdr().timestampNs, base);
            && LastOffset(rs + [r], base) == (if LastOffset(rs, base) < o then o else LastOffset(rs, base))
            && Buckets(rs + [r], base, scale) ==
               (var before := Buckets(rs, base, scale);
                var b := BucketOf(o, scale);
                if r.Complete? && KeyOf(r) in m then before[b := Default(before, b).Add(m[KeyOf(r)])] else before)
    ensures Warnings(rs + [r]) == Warnings(rs) +
              if r.Submit? && KeyOf(r) in m then [DuplicateSubmit(KeyOf(r))]
              else if r.Complete? && KeyOf(r) !in m then [UnmatchedCompletion(KeyOf(r))]
              else []
  {
    hide InFlight, Latest, BucketOf;
    var t := rs + [r];
    assert t[..|rs|] == rs;
    assert SqesOk(t);
    Snoc(rs, r);
    FlightMatchNext(m, rs, r);
  }

  /** The rows of the buckets outside `rest`, all of them earlier. */
  ghost predicate RowsSoFar(rows: seq<Row>, m: map<nat, Bucket>, rest: set<nat>, scale: u64, lastOffset: nat)
    requires scale > 0 && rest <= m.Keys
  {
    RowsList(rows, m - rest, scale, lastOffset) && forall i, b :: 0 <= i < |rows| && b in rest ==> rows[i].time < b
  }

  lemma RowsNext(rows: seq<Row>, m: map<nat, Bucket>, rest: set<nat>, scale: u64, lastOffset: nat, b: nat)
    requires scale > 0 && rest <= m.Keys && RowsSoFar(rows, m, rest, scale, lastOffset)
    requires b in rest && forall x <- rest :: b <= x
    ensures RowsSoFar(rows + [Row(b, m[b], Duration(b, scale, lastOffset))], m, rest - {b}, scale, lastOffset)
  {
    hide Duration;
    var next := rows + [Row(b, m[b], Duration(b, scale, lastOffset))];
    assert next[|rows|].time == b;
    forall x <- m - (rest - {b})
      ensures exists i :: 0 <= i < |next| && next[i].time == x
    {
      if x != b {
        assert x in m - rest;
        var i :| 0 <= i < |rows| && rows[i].time == x;
        assert next[i].time == x;
      }
    }
  }

  method WriteRows(m: map<nat, Bucket>, scale: u64, lastOffset: nat) returns (rows: seq<Row>)
    requires scale > 0
    ensures RowsList(rows, m, scale, lastOffset)
  {
    hide Duration, RowsSoFar;
    rows := [];
    var rest := m.Keys;
    assert RowsSoFar(rows, m, rest, scale, lastOffset) by { RowsStart(m, scale, lastOffset); }
    while rest != {}
      invariant rest <= m.Keys
      invariant RowsSoFar(rows, m, rest, scale, lastOffset)
      decreases |rest|
    {
      ghost var least := LeastExists(rest);
      var b :| b in rest && forall x <- rest :: b <= x;
      RowsNext(rows, m, rest, scale, lastOffset, b);
      rows := rows + [Row(b, m[b], Duration(b, scale, lastOffset))];
      rest := rest - {b};
    }
    RowsEnd(rows, m, scale, lastOffset);
  }

  lemma RowsStart(m: map<nat, Bucket>, scale: u64, lastOffset: nat)
    requires scale > 0
    ensures RowsSoFar([], m, m.Keys, scale, lastOffset)
  {
  }

  lemma RowsEnd(rows: seq<Row>, m: map<nat, Bucket>, scale: u64, lastOffset: nat)
    requires scale > 0 && RowsSoFar(rows, m, {}, scale, lastOffset)
    ensures RowsList(rows, m, scale, lastOffset)
  {
    assert m - {} == m;
  }

  // ---------------------------------------------------------------- what the buckets hold

  /** Bytes in one direction of the matched completions with offset in `lo..hi`. */
  function BytesIn(rs: seq<TraceRecord>, base: u64, lo: nat, hi: nat, d: Direction): (n: nat)
    requires SqesOk(rs)
  {
    if rs == [] then 0
    else
      var before, r := rs[..|rs| - 1], rs[|rs| - 1];
      var o := SaturatingSub(r.Hdr().timestampNs, base);
      BytesIn(before, base, lo, hi, d)
      + if Matches(before, r) && lo <= o < hi && Latest(before, KeyOf(r)).direction == d
        then Latest(before, KeyOf(r)).dataLen else 0
  }

  /** How many matched completions have their offset in `lo..hi`. */
  function CompletedIn(rs: seq<TraceRecord>, base: u64, lo: nat, hi: nat): (n: nat) {
    if rs == [] then 0
    else
      var before, r := rs[..|rs| - 1], rs[|rs| - 1];
      var o := SaturatingSub(r.Hdr().timestampNs, base);
      CompletedIn(before, base, lo, hi) + if Matches(before, r) && lo <= o < hi then 1 else 0
  }

  /** The bucket of an offset is the one multiple of the scale at most `scale - 1` below it. */
  lemma BucketUnique(offset: nat, scale: nat, b: nat)
    requires scale > 0
    ensures BucketOf(offset, scale) % scale == 0
    ensures b % scale == 0 && b <= offset < b + scale <==> b == BucketOf(offset, scale)
  {
    var q := offset / scale;
    DivUnique(q * scale, q, 0, scale);
    if b % scale == 0 && b <= offset < b + scale {
      DivUnique(offset, b / scale, offset - b, scale);
    }
  }

  /** Every bucket is a multiple of the scale that holds exactly the bytes of the matched completions
      whose offset lies in it; and there is a bucket wherever one completed. */
  lemma {:induction false} BucketContents(rs: seq<TraceRecord>, base: u64, scale: u64, b: nat)
    requires SqesOk(rs) && scale > 0
    ensures var m := Buckets(rs, base, scale);
            && (b in m <==> b % scale == 0 && CompletedIn(rs, base, b, b + scale) > 0)
            && (b % scale == 0 ==>
                  Default(m, b)
                  == Bucket(BytesIn(rs, base, b, b + scale, Read), BytesIn(rs, base, b, b + scale, Write)))
  {
    hide InFlight, Latest, BucketOf;
    if rs != [] {
      var before, r := rs[..|rs| - 1], rs[|rs| - 1];
      BucketContents(before, base, scale, b);
      BucketUnique(SaturatingSub(r.Hdr().timestampNs, base), scale, b);
    }
  }

  // ---------------------------------------------------------------- conservation

  /** Bytes in one direction over all matched completions. */
  function TotalBytes(rs: seq<TraceRecord>, d: Direction): (n: nat)
    requires SqesOk(rs)
  {
    if rs == [] then 0
    else
      var before, r := rs[..|rs| - 1], rs[|rs| - 1];
      TotalBytes(before, d)
      + if Matches(before, r) && Latest(before, KeyOf(r)).direction == d then Latest(before, KeyOf(r)).dataLen else 0
  }

  ghost function PickKey(s: set<nat>): (b: nat)
    requires s != {}
    ensures b in s
  {
    var b :| b in s;
    b
  }

  ghost function SumBuckets(m: map<nat, Bucket>, d: Direction): nat
    decreases |m.Keys|
  {
    if m == map[] then 0
    else
      var b := PickKey(m.Keys);
      assert (m - {b}).Keys == m.Keys - {b};
      m[b].Bytes(d) + SumBuckets(m - {b}, d)
  }

  /** The sum does not depend on which key is taken out first. */
  lemma {:induction false} SumWithout(m: map<nat, Bucket>, b: nat, d: Direction)
    requires b in m
    ensures SumBuckets(m, d) == m[b].Bytes(d) + SumBuckets(m - {b}, d)
    decreases |m.Keys|
  {
    var p := PickKey(m.Keys);
    if p != b {
      assert (m - {p}).Keys == m.Keys - {p};
      assert (m - {b}).Keys == m.Keys - {b};
      SumWithout(m - {p}, b, d);
      SumWithout(m - {b}, p, d);
      assert m - {p} - {b} == m - {b} - {p};
    }
  }

  lemma SumUpdate(m: map<nat, Bucket>, b: nat, v: Bucket, d: Direction)
    ensures SumBuckets(m[b := v], d) + Default(m, b).Bytes(d) == SumBuckets(m, d) + v.Bytes(d)
  {
    SumWithout(m[b := v], b, d);
    assert m[b := v] - {b} == m - {b};
    if b in m {
      SumWithout(m, b, d);
    } else {
      assert m - {b} == m;
    }
  }

  /** Conservation: the bytes over all buckets are the bytes of all matched completions, by direction. */
  lemma {:induction false} BucketsTotal(rs: seq<TraceRecord>, base: u64, scale: u64, d: Direction)
    requires SqesOk(rs) && scale > 0 && d != Other
    ensures SumBuckets(Buckets(rs, base, scale), d) == TotalBytes(rs, d)
  {
    hide InFlight, Latest, BucketOf, SumBuckets;
    if rs == [] {
      assert SumBuckets(map[], d) == 0 by { SumNothing(d); }
    } else {
      var before, r := rs[..|rs| - 1], rs[|rs| - 1];
      BucketsTotal(before, base, scale, d);
      if Matches(before, r) {
        var m := Buckets(before, base, scale);
        var b := BucketOf(SaturatingSub(r.Hdr().timestampNs, base), scale);
        SumUpdate(m, b, Default(m, b).Add(Latest(before, KeyOf(r))), d);
      }
    }
  }

  lemma SumNothing(d: Direction)
    ensures SumBuckets(map[], d) == 0
  {
  }

  // ---------------------------------------------------------------- durations

  lemma {:induction false} CompletedBelow(rs: seq<TraceRecord>, base: u64, lo: nat, hi: nat)
    requires CompletedIn(rs, base, lo, hi) > 0
    ensures lo <= LastOffset(rs, base)
  {
    hide InFlight;
    if CompletedIn(rs[..|rs| - 1], base, lo, hi) > 0 {
      CompletedBelow(rs[..|rs| - 1], base, lo, hi);
    }
  }

  /** Every bucket but the last lasts exactly the scale; a bucket that the last record falls into ends
      at that record, but lasts at least 1. */
  lemma BucketDurations(rs: seq<TraceRecord>, base: u64, scale: u64, b: nat)
    requires SqesOk(rs) && scale > 0 && b in Buckets(rs, base, scale)
    ensures var d, last := Duration(b, scale, LastOffset(rs, base)), LastOffset(rs, base);
            && b <= last && 1 <= d <= scale
            && (last >= b + scale ==> d == scale)
            && (b < last < b + scale ==> b + d == last)
            && (last == b ==> d == 1)
            && ((exists x <- Buckets(rs, base, scale) :: x > b) ==> d == scale)
  {
    hide Buckets, LastOffset, CompletedIn, BytesIn;
    BucketContents(rs, base, scale, b);
    CompletedBelow(rs, base, b, b + scale);
    forall x | x in Buckets(rs, base, scale) && x > b
      ensures Duration(b, scale, LastOffset(rs, base)) == scale
    {
      BucketContents(rs, base, scale, x);
      CompletedBelow(rs, base, x, x + scale);
      MultiplesApart(b, x, scale);
    }
  }

  lemma MultiplesApart(a: nat, b: nat, s: nat)
    requires s > 0 && a % s == 0 && b % s == 0 && a < b
    ensures a + s <= b
  {
    if b < a + s {
      DivUnique(b, a / s, b - a, s);
    }
  }

  // ---------------------------------------------------------------- the rows, from the records

  /** Completion `k` ends submit `j`: nothing in between names the command. */
  predicate Completes(rs: seq<TraceRecord>, k: nat, j: nat)
    requires k < |rs| && j < |rs|
  {
    && j < k && rs[k].Complete? && rs[j].Submit? && SameCommand(rs[j], rs[k])
    && forall m :: j < m < k ==> !SameCommand(rs[m], rs[k])
  }

  /** Nanoseconds from `base` to the record, 0 if it is earlier. */
  function Elapsed(r: TraceRecord, base: u64): nat {
    if r.Hdr().timestampNs < base then 0 else r.Hdr().timestampNs - base
  }

  /** The data length of the submit that record `k` completes, if its command byte is `opcode`. */
  ghost function Charged(rs: seq<TraceRecord>, k: nat, opcode: byte): (n: nat)
    requires SqesOk(rs) && k < |rs|
  {
    if j :| 0 <= j < k && Completes(rs, k, j) && rs[j] in rs && rs[j].submit.sqe[0] == opcode
    then rs[j].submit.dataLen else 0
  }

  /** The data lengths with command byte `opcode` completed at least `lo` and less than `hi` after `base`. */
  ghost function BytesDone(rs: seq<TraceRecord>, base: u64, lo: nat, hi: nat, opcode: byte): (n: nat)
    requires SqesOk(rs)
  {
    if rs == [] then 0
    else
      var k := |rs| - 1;
      BytesDone(rs[..k], base, lo, hi, opcode) + if lo <= Elapsed(rs[k], base) < hi then Charged(rs, k, opcode) else 0
  }

  /** The last record completes a submit exactly if its command was in flight, and then the latest of it. */
  lemma LastCompletes(rs: seq<TraceRecord>)
    requires SqesOk(rs) && rs != []
    ensures var k := |rs| - 1;
            var before, key := rs[..k], KeyOf(rs[k]);
            && (Matches(before, rs[k]) <==> exists j :: 0 <= j < k && Completes(rs, k, j))
            && forall j :: 0 <= j < k && Completes(rs, k, j) ==>
                 && Matches(before, rs[k]) && |rs[j].submit.sqe| == 64
                 && Latest(before, key).dataLen == rs[j].submit.dataLen
                 && (Latest(before, key).direction == Read <==> rs[j].submit.sqe[0] == 2)
                 && (Latest(before, key).direction == Write <==> rs[j].submit.sqe[0] == 1)
  {
    hide InFlight, Latest, KeyOf;
    var k := |rs| - 1;
    var before, h := rs[..k], rs[k].Hdr();
    InFlightExactly(before, h.ctrlId, h.qid, h.cid);
    KeyIs(rs[k]);
    forall j | 0 <= j < k
      ensures before[j] == rs[j]
      ensures Completes(rs, k, j) <==> rs[k].Complete? && Open(before, j) && SameCommand(rs[j], rs[k])
    {
      assert forall m :: j < m < k ==> before[m] == rs[m];
    }
    forall j | 0 <= j < k && Completes(rs, k, j)
      ensures |rs[j].submit.sqe| == 64 && Latest(before, KeyOf(rs[k])).dataLen == rs[j].submit.dataLen
      ensures Latest(before, KeyOf(rs[k])).direction == Read <==> rs[j].submit.sqe[0] == 2
      ensures Latest(before, KeyOf(rs[k])).direction == Write <==> rs[j].submit.sqe[0] == 1
    {
      KeysAreCommands(rs[j], rs[k]);
      LatestMeans(before, j);
    }
  }

  lemma KeyIs(r: TraceRecord)
    ensures KeyOf(r) == CommandKey(r.Hdr().ctrlId, r.Hdr().qid, r.Hdr().cid)
  {
  }

  lemma ChargedIs(rs: seq<TraceRecord>)
    requires SqesOk(rs) && rs != []
    ensures var k := |rs| - 1;
            var before, key := rs[..k], KeyOf(rs[k]);
            && Charged(rs, k, 2) == (if Matches(before, rs[k]) && Latest(before, key).direction == Read
                                     then Latest(before, key).dataLen else 0)
            && Charged(rs, k, 1) == (if Matches(before, rs[k]) && Latest(before, key).direction == Write
                                     then Latest(before, key).dataLen else 0)
  {
    hide InFlight, Latest, KeyOf, Completes;
    LastCompletes(rs);
    var k := |rs| - 1;
    if j :| 0 <= j < k && Completes(rs, k, j) {
      assert rs[j] in rs;
      forall i | 0 <= i < k && Completes(rs, k, i)
        ensures i == j
      {
        CompletesOnce(rs, k, i, j);
      }
    }
  }

  lemma CompletesOnce(rs: seq<TraceRecord>, k: nat, i: nat, j: nat)
    requires k < |rs| && i < k && j < k && Completes(rs, k, i) && Completes(rs, k, j)
    ensures i == j
  {
  }

  /** The bytes counted are those of the records. */
  lemma {:induction false} BytesExactly(rs: seq<TraceRecord>, base: u64, lo: nat, hi: nat)
    requires SqesOk(rs)
    ensures BytesIn(rs, base, lo, hi, Read) == BytesDone(rs, base, lo, hi, 2)
    ensures BytesIn(rs, base, lo, hi, Write) == BytesDone(rs, base, lo, hi, 1)
    ensures CompletedIn(rs, base, lo, hi) > 0 <==> DoneIn(rs, base, lo, hi)
  {
    hide InFlight, Latest, KeyOf, Completes, Charged, Matches;
    if rs != [] {
      var n := |rs| - 1;
      var before := rs[..n];
      BytesExactly(before, base, lo, hi);
      ChargedIs(rs);
      LastCompletes(rs);
      forall k, j | 0 <= j < k < n
        ensures before[k] == rs[k] && (Completes(before, k, j) <==> Completes(rs, k, j))
      {
        CompletesEarlier(rs, k, j);
      }
    }
  }

  lemma CompletesEarlier(rs: seq<TraceRecord>, k: nat, j: nat)
    requires j < k < |rs| - 1
    ensures Completes(rs[..|rs| - 1], k, j) <==> Completes(rs, k, j)
  {
    assert forall m :: 0 <= m < |rs| - 1 ==> rs[..|rs| - 1][m] == rs[m];
  }

  lemma {:induction false} TotalIsAll(rs: seq<TraceRecord>, base: u64, d: Direction)
    requires SqesOk(rs)
    ensures TotalBytes(rs, d) == BytesIn(rs, base, 0, U64_SIZE, d)
  {
    hide InFlight, Latest, KeyOf, Matches;
    if rs != [] {
      TotalIsAll(rs[..|rs| - 1], base, d);
    }
  }

  /** The bytes over all buckets are the data lengths of all completed commands: reads are those with command byte
      2, writes those with 1, and nothing else counts. */
  lemma ThroughputConserves(rs: seq<TraceRecord>, base: u64, scale: u64)
    requires SqesOk(rs) && scale > 0
    ensures SumBuckets(Buckets(rs, base, scale), Read) == BytesDone(rs, base, 0, U64_SIZE, 2)
    ensures SumBuckets(Buckets(rs, base, scale), Write) == BytesDone(rs, base, 0, U64_SIZE, 1)
  {
    hide Buckets, SumBuckets, BytesIn, BytesDone, TotalBytes;
    BucketsTotal(rs, base, scale, Read);
    BucketsTotal(rs, base, scale, Write);
    TotalIsAll(rs, base, Read);
    TotalIsAll(rs, base, Write);
    BytesExactly(rs, base, 0, U64_SIZE);
  }

  /** Some command completed at least `lo` and less than `hi` after `base`. */
  ghost predicate DoneIn(rs: seq<TraceRecord>, base: u64, lo: nat, hi: nat) {
    exists k, j :: 0 <= j < k < |rs| && Completes(rs, k, j) && lo <= Elapsed(rs[k], base) < hi
  }

  /** What one row says: the data lengths completed in its interval, by command byte, and the time it covers. */
  ghost predicate RowMeans(row: Row, rs: seq<TraceRecord>, base: u64, scale: u64, last: nat)
    requires SqesOk(rs)
  {
    var t := row.time;
    && row.bucket.readBytes == BytesDone(rs, base, t, t + scale, 2)
    && row.bucket.writeBytes == BytesDone(rs, base, t, t + scale, 1)
    && row.duration == if last <= t then 1 else if last - t > scale then scale else last - t
  }

  predicate HasRow(rows: seq<Row>, t: nat) {
    exists i :: 0 <= i < |rows| && rows[i].time == t
  }

  lemma BucketMeans(rs: seq<TraceRecord>, base: u64, scale: u64, t: nat, last: nat)
    requires SqesOk(rs) && scale > 0
    ensures var m := Buckets(rs, base, scale);
            && (t in m <==> t % scale == 0 && DoneIn(rs, base, t, t + scale))
            && (t in m ==> RowMeans(Row(t, m[t], Duration(t, scale, last)), rs, base, scale, last))
  {
    hide Buckets, BytesIn, BytesDone, CompletedIn, Completes, SqesOk;
    BucketContents(rs, base, scale, t);
    BytesExactly(rs, base, t, t + scale);
  }

  lemma LastIs(rs: seq<TraceRecord>)
    requires rs != []
    ensures var base, last := rs[0].Hdr().timestampNs, LastOffset(rs, BaseOf(rs));
            && (forall i :: 0 <= i < |rs| ==> Elapsed(rs[i], base) <= last)
            && (exists i :: 0 <= i < |rs| && Elapsed(rs[i], base) == last)
  {
    hide LastOffset;
    var base := rs[0].Hdr().timestampNs;
    assert forall i :: 0 <= i < |rs| ==> Elapsed(rs[i], base) == SaturatingSub(rs[i].Hdr().timestampNs, base);
  }

  /**
   What the rows say. Offsets count from the first record, `last` is the largest. There is a row at each multiple
   of the scale where a command completed, in ascending order; it holds the data lengths completed in that
   interval by command byte, and the time it covers: the scale, or up to the last offset if that comes first, but
   at least 1.
   */
  lemma RowsMean(rs: seq<TraceRecord>, scale: u64, rows: seq<Row>) returns (last: nat)
    requires SqesOk(rs) && scale > 0 && rs != []
    requires RowsList(rows, Buckets(rs, BaseOf(rs), scale), scale, LastOffset(rs, BaseOf(rs)))
    ensures var base := rs[0].Hdr().timestampNs;
            && (forall i :: 0 <= i < |rs| ==> Elapsed(rs[i], base) <= last)
            && (exists i :: 0 <= i < |rs| && Elapsed(rs[i], base) == last)
            && (forall i, j :: 0 <= i < j < |rows| ==> rows[i].time < rows[j].time)
            && (forall i :: 0 <= i < |rows| ==> RowMeans(rows[i], rs, base, scale, last))
            && (forall t: nat :: HasRow(rows, t) <==> t % scale == 0 && DoneIn(rs, base, t, t + scale))
  {
    hide Buckets, SqesOk, LastOffset, RowMeans, DoneIn, Duration, Elapsed;
    var base := rs[0].Hdr().timestampNs;
    last := LastOffset(rs, BaseOf(rs));
    LastIs(rs);
    forall t: nat
      ensures t in Buckets(rs, base, scale) <==> t % scale == 0 && DoneIn(rs, base, t, t + scale)
      ensures t in Buckets(rs, base, scale) ==>
                RowMeans(Row(t, Buckets(rs, base, scale)[t], Duration(t, scale, last)), rs, base, scale, last)
      ensures HasRow(rows, t) <==> t in Buckets(rs, base, scale)
    {
      BucketMeans(rs, base, scale, t, last);
    }
  }
}
