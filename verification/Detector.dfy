/**
 The duplicate detectors of `reproducer/relay-repro-client/src/main.rs` and
 `reproducer/relay_repro_client.c`, and the writer of `reproducer/relay_repro.c` they
 are judged against.
 */
module Detector {
  import opened Bytes
  import opened Records
  import opened Arith

  const RECORD_SIZE: nat := 24
  const REPRO_MAGIC: u32 := 0xDEAD_BEEF
  const U64_MAX: u64 := 0xFFFF_FFFF_FFFF_FFFF
  const U32_MAX: u32 := 0xFFFF_FFFF

  datatype Rec = Rec(toggle: u32, seqNo: u64)

  function RecordImage(r: Rec, timestampNs: u64): (b: seq<byte>)
    ensures |b| == RECORD_SIZE
  {
    Put32(REPRO_MAGIC) + Put32(r.toggle) + Put64(r.seqNo) + Put64(timestampNs)
  }

  function MagicAt(chunk: seq<byte>, i: nat): u32
    requires i + RECORD_SIZE <= |chunk|
  {
    Get32(chunk[i..i + 4])
  }

  function RecAt(chunk: seq<byte>, i: nat): Rec
    requires i + RECORD_SIZE <= |chunk|
  {
    Rec(Get32(chunk[i + 4..i + 8]), Get64(chunk[i + 8..i + 16]))
  }

  /** The records both clients accept in a chunk from index `i`: a wrong magic skips one byte. */
  function Accepted(chunk: seq<byte>, i: nat): (rs: seq<Rec>)
    decreases |chunk| - i
  {
    if i + RECORD_SIZE > |chunk| then []
    else if MagicAt(chunk, i) != REPRO_MAGIC then Accepted(chunk, i + 1)
    else [RecAt(chunk, i)] + Accepted(chunk, i + RECORD_SIZE)
  }

  /** How many bytes are skipped. */
  function Skipped(chunk: seq<byte>, i: nat): (n: nat)
    decreases |chunk| - i
  {
    if i + RECORD_SIZE > |chunk| then 0
    else if MagicAt(chunk, i) != REPRO_MAGIC then 1 + Skipped(chunk, i + 1)
    else Skipped(chunk, i + RECORD_SIZE)
  }

  lemma ScanStep(chunk: seq<byte>, i: nat)
    requires i + RECORD_SIZE <= |chunk|
    ensures MagicAt(chunk, i) != REPRO_MAGIC ==>
              && Accepted(chunk, i) == Accepted(chunk, i + 1)
              && Skipped(chunk, i) == 1 + Skipped(chunk, i + 1)
    ensures MagicAt(chunk, i) == REPRO_MAGIC ==>
              && Accepted(chunk, i) == [RecAt(chunk, i)] + Accepted(chunk, i + RECORD_SIZE)
              && Skipped(chunk, i) == Skipped(chunk, i + RECORD_SIZE)
  {
    hide RecAt, MagicAt;
  }

  lemma ScanEnd(chunk: seq<byte>, i: nat)
    requires i + RECORD_SIZE > |chunk|
    ensures Accepted(chunk, i) == [] && Skipped(chunk, i) == 0
  {
  }

  // ---------------------------------------------------------------- duplicate counts

  /** The Rust client's test against the record before. */
  predicate IsDup(last: Rec, r: Rec) {
    r.seqNo <= last.seqNo && last.toggle == r.toggle
  }

  /** The C client's test: its sentinel for "no record yet" is also a sequence number. */
  predicate IsDupC(last: Rec, r: Rec) {
    last.seqNo != U64_MAX && r.seqNo <= last.seqNo && r.toggle == last.toggle
  }

  /** Duplicates the Rust client counts over accepted records, after an earlier one if any. */
  function Dups(last: Option<Rec>, rs: seq<Rec>): (n: nat)
    decreases |rs|
  {
    if rs == [] then 0
    else (if last.Some? && IsDup(last.value, rs[0]) then 1 else 0) + Dups(Some(rs[0]), rs[1..])
  }

  function DupsC(last: Rec, rs: seq<Rec>): (n: nat)
    decreases |rs|
  {
    if rs == [] then 0 else (if IsDupC(last, rs[0]) then 1 else 0) + DupsC(rs[0], rs[1..])
  }

  /** The C client's initial state. */
  const SENTINEL: Rec := Rec(U32_MAX, U64_MAX)

  // ---------------------------------------------------------------- the clients

  class RustClient {
    var lastSeq: Option<u64>
    var lastToggle: Option<u32>
    var total: nat
    var dups: nat
    var corruptions: nat
    ghost var seen: seq<Rec>

    constructor ()
      ensures Valid() && seen == [] && corruptions == 0
    {
      lastSeq, lastToggle := None, None;
      total, dups, corruptions := 0, 0, 0;
      seen := [];
    }

    /** The counters are those of the records accepted so far. */
    ghost predicate Valid()
      reads this
    {
      && total == |seen| && dups == Dups(None, seen)
      && (seen == [] ==> lastSeq == None && lastToggle == None)
      && (seen != [] ==> lastSeq == Some(seen[|seen| - 1].seqNo) && lastToggle == Some(seen[|seen| - 1].toggle))
    }

    /** One accepted record against the one before. */
    method Accept(rec: Rec)
      requires Valid()
      modifies this
      ensures Valid() && seen == old(seen) + [rec] && corruptions == old(corruptions)
    {
      hide Dups;
      DupsSnoc(None, seen, rec);
      var isDup := lastSeq.Some? && rec.seqNo <= lastSeq.value && lastToggle == Some(rec.toggle);
      if isDup {
        dups := dups + 1;
      }
      lastSeq := Some(rec.seqNo);
      lastToggle := Some(rec.toggle);
      total := total + 1;
      seen := seen + [rec];
    }

    method Scan(buf: array<byte>, n: nat)
      requires Valid() && n <= buf.Length
      modifies this
      ensures Valid() && seen == old(seen) + Accepted(buf[..n], 0)
      ensures corruptions == old(corruptions) + Skipped(buf[..n], 0) + if n % RECORD_SIZE != 0 then 1 else 0
    {
      hide Dups, RecAt, MagicAt, Accepted, Skipped, IsDup;
      ghost var chunk := buf[..n];
      if n % RECORD_SIZE != 0 {
        corruptions := corruptions + 1;
      }
      ghost var before := corruptions;
      var offset := 0;
      while offset + RECORD_SIZE <= n
        invariant Valid() && buf[..n] == chunk
        invariant seen + Accepted(chunk, offset) == old(seen) + Accepted(chunk, 0)
        invariant corruptions + Skipped(chunk, offset) == before + Skipped(chunk, 0)
        decreases n - offset
      {
        ScanStep(chunk, offset);
        var magic, rec := ReadRec(buf, n, offset);
        if magic != REPRO_MAGIC {
          corruptions := corruptions + 1;
          offset := offset + 1;
        } else {
          Accept(rec);
          offset := offset + RECORD_SIZE;
        }
      }
      ScanEnd(chunk, offset);
    }
  }

  /** Decodes the 24 bytes at `offset`. */
  method ReadRec(buf: array<byte>, n: nat, offset: nat) returns (magic: u32, rec: Rec)
    requires n <= buf.Length && offset + RECORD_SIZE <= n
    ensures magic == MagicAt(buf[..n], offset) && rec == RecAt(buf[..n], offset)
  {
    assert buf[..n][offset..offset + 4] == buf[offset..offset + 4];
    assert buf[..n][offset + 4..offset + 8] == buf[offset + 4..offset + 8];
    assert buf[..n][offset + 8..offset + 16] == buf[offset + 8..offset + 16];
    magic := Get32(buf[offset..offset + 4]);
    rec := Rec(Get32(buf[offset + 4..offset + 8]), Get64(buf[offset + 8..offset + 16]));
  }

  class CClient {
    var lastSeq: u64
    var lastToggle: u32
    var total: nat
    var dups: nat
    var fileOff: nat
    ghost var seen: seq<Rec>

    constructor ()
      ensures Valid() && seen == [] && fileOff == 0
    {
      lastSeq, lastToggle := U64_MAX, U32_MAX;
      total, dups, fileOff := 0, 0, 0;
      seen := [];
    }

    ghost predicate Valid()
      reads this
    {
      && total == |seen| && dups == DupsC(SENTINEL, seen)
      && Rec(lastToggle, lastSeq) == if seen == [] then SENTINEL else seen[|seen| - 1]
    }

    method Scan(buf: array<byte>, n: nat)
      requires Valid() && n <= buf.Length
      modifies this
      ensures Valid() && seen == old(seen) + Accepted(buf[..n], 0) && fileOff == old(fileOff) + n
    {
      hide DupsC, RecAt, MagicAt, Accepted;
      ghost var chunk := buf[..n];
      var p := 0;
      while p + RECORD_SIZE <= n
        invariant Valid() && buf[..n] == chunk && fileOff == old(fileOff)
        invariant seen + Accepted(chunk, p) == old(seen) + Accepted(chunk, 0)
        decreases n - p
      {
        ScanStep(chunk, p);
        var magic, rec := ReadRec(buf, n, p);
        if magic != REPRO_MAGIC {
          p := p + 1;
        } else {
          DupsCSnoc(SENTINEL, seen, rec);
          if lastSeq != U64_MAX && rec.seqNo <= lastSeq && rec.toggle == lastToggle {
            dups := dups + 1;
          }
          lastSeq := rec.seqNo;
          lastToggle := rec.toggle;
          total := total + 1;
          seen := seen + [rec];
          p := p + RECORD_SIZE;
        }
      }
      ScanEnd(chunk, p);
      fileOff := fileOff + n;
    }
  }

  lemma {:induction false} DupsSnoc(last: Option<Rec>, rs: seq<Rec>, r: Rec)
    ensures var l := if rs == [] then last else Some(rs[|rs| - 1]);
            Dups(last, rs + [r]) == Dups(last, rs) + if l.Some? && IsDup(l.value, r) then 1 else 0
    decreases |rs|
  {
    if rs == [] {
      assert (rs + [r])[1..] == [];
    } else {
      assert (rs + [r])[1..] == rs[1..] + [r];
      DupsSnoc(Some(rs[0]), rs[1..], r);
    }
  }

  lemma {:induction false} DupsCSnoc(last: Rec, rs: seq<Rec>, r: Rec)
    ensures DupsC(last, rs + [r]) ==
            DupsC(last, rs) + if IsDupC(if rs == [] then last else rs[|rs| - 1], r) then 1 else 0
    decreases |rs|
  {
    if rs == [] {
      assert (rs + [r])[1..] == [];
    } else {
      assert (rs + [r])[1..] == rs[1..] + [r];
      DupsCSnoc(rs[0], rs[1..], r);
    }
  }

  // ---------------------------------------------------------------- what the count means

  /** Within every stretch of equal toggle, sequence numbers strictly increase. */
  ghost predicate IncreasingRuns(rs: seq<Rec>) {
    forall i, j ::
      0 <= i < j < |rs| && (forall k :: i <= k <= j ==> rs[k].toggle == rs[i].toggle)
      ==> rs[i].seqNo < rs[j].seqNo
  }

  ghost predicate NoAdjacentDup(rs: seq<Rec>) {
    forall i :: 0 <= i < |rs| - 1 ==> !IsDup(rs[i], rs[i + 1])
  }

  lemma {:induction false} NoDupsAdjacent(last: Option<Rec>, rs: seq<Rec>)
    ensures Dups(last, rs) == 0 <==> NoAdjacentDup(rs) && (rs != [] && last.Some? ==> !IsDup(last.value, rs[0]))
    decreases |rs|
  {
    if rs != [] {
      NoDupsAdjacent(Some(rs[0]), rs[1..]);
      assert NoAdjacentDup(rs) <==> NoAdjacentDup(rs[1..]) && (|rs| > 1 ==> !IsDup(rs[0], rs[1])) by {
        assert forall i :: 0 <= i < |rs[1..]| ==> rs[1..][i] == rs[i + 1];
        if NoAdjacentDup(rs[1..]) && (|rs| > 1 ==> !IsDup(rs[0], rs[1])) {
          forall i | 0 <= i < |rs| - 1
            ensures !IsDup(rs[i], rs[i + 1])
          {
            if i > 0 {
              assert !IsDup(rs[1..][i - 1], rs[1..][i - 1 + 1]);
            }
          }
        }
        if NoAdjacentDup(rs) {
          forall i | 0 <= i < |rs[1..]| - 1
            ensures !IsDup(rs[1..][i], rs[1..][i + 1])
          {
            assert !IsDup(rs[i + 1], rs[i + 1 + 1]);
          }
        }
      }
    }
  }

  lemma {:induction false} RunIncreases(rs: seq<Rec>, i: nat, j: nat)
    requires NoAdjacentDup(rs) && i < j < |rs| && forall k :: i <= k <= j ==> rs[k].toggle == rs[i].toggle
    ensures rs[i].seqNo < rs[j].seqNo
    decreases j - i
  {
    assert !IsDup(rs[j - 1], rs[j - 1 + 1]);
    if i < j - 1 {
      RunIncreases(rs, i, j - 1);
    }
  }

  /** The Rust client reports nothing exactly when sequence numbers increase within every run of equal toggle. */
  lemma NoDupsExactly(rs: seq<Rec>)
    ensures Dups(None, rs) == 0 <==> IncreasingRuns(rs)
  {
    hide Dups;
    NoDupsAdjacent(None, rs);
    if NoAdjacentDup(rs) {
      forall i, j | 0 <= i < j < |rs| && (forall k :: i <= k <= j ==> rs[k].toggle == rs[i].toggle)
        ensures rs[i].seqNo < rs[j].seqNo
      {
        RunIncreases(rs, i, j);
      }
    }
    if IncreasingRuns(rs) {
      forall i | 0 <= i < |rs| - 1
        ensures !IsDup(rs[i], rs[i + 1])
      {
        if rs[i].toggle == rs[i + 1].toggle {
          assert forall k :: i <= k <= i + 1 ==> rs[k].toggle == rs[i].toggle;
        }
      }
    }
  }

  /** How many records directly follow one with the largest sequence number and the same toggle. */
  function AfterMax(last: Option<Rec>, rs: seq<Rec>): (n: nat)
    decreases |rs|
  {
    if rs == [] then 0
    else
      (if last.Some? && last.value.seqNo == U64_MAX && last.value.toggle == rs[0].toggle then 1 else 0)
      + AfterMax(Some(rs[0]), rs[1..])
  }

  lemma {:induction false} ClientsDiffer'(last: Rec, rs: seq<Rec>)
    ensures Dups(Some(last), rs) == DupsC(last, rs) + AfterMax(Some(last), rs)
    decreases |rs|
  {
    if rs != [] {
      ClientsDiffer'(rs[0], rs[1..]);
    }
  }

  /** Over any accepted records the Rust count exceeds the C count by exactly the records that follow a
      record numbered 2^64-1 with the same toggle: there the C client mistakes it for its sentinel. */
  lemma ClientsDiffer(rs: seq<Rec>)
    ensures Dups(None, rs) == DupsC(SENTINEL, rs) + AfterMax(None, rs)
  {
    if rs != [] {
      ClientsDiffer'(rs[0], rs[1..]);
    }
  }

  /** Record `i` has the toggle of the record before it and does not exceed its number. */
  predicate RepeatAt(rs: seq<Rec>, i: nat)
    requires 1 <= i < |rs|
  {
    rs[i].toggle == rs[i - 1].toggle && rs[i].seqNo <= rs[i - 1].seqNo
  }

  /** The same, unless the record before is numbered 2^64-1. */
  predicate RepeatAtC(rs: seq<Rec>, i: nat)
    requires 1 <= i < |rs|
  {
    RepeatAt(rs, i) && rs[i - 1].seqNo != 0xFFFF_FFFF_FFFF_FFFF
  }

  function Repeats(rs: seq<Rec>): (s: set<nat>) {
    set i | 1 <= i < |rs| && RepeatAt(rs, i)
  }

  function RepeatsC(rs: seq<Rec>): (s: set<nat>) {
    set i | 1 <= i < |rs| && RepeatAtC(rs, i)
  }

  lemma RepeatsLast(rs: seq<Rec>, n: nat)
    requires |rs| == n + 1
    ensures n !in Repeats(rs[..n]) && n !in RepeatsC(rs[..n])
    ensures Repeats(rs) == Repeats(rs[..n]) + if n > 0 && IsDup(rs[n - 1], rs[n]) then {n} else {}
    ensures RepeatsC(rs) == RepeatsC(rs[..n]) + if n > 0 && IsDupC(rs[n - 1], rs[n]) then {n} else {}
  {
    forall i | 1 <= i < n
      ensures RepeatAt(rs[..n], i) <==> RepeatAt(rs, i)
      ensures RepeatAtC(rs[..n], i) <==> RepeatAtC(rs, i)
    {
    }
  }

  lemma SentinelMatchesNothing(r: Rec)
    ensures !IsDupC(SENTINEL, r)
  {
  }

  /** The counts of the two clients are the numbers of those records. */
  lemma {:induction false} DupsExactly(rs: seq<Rec>)
    ensures Dups(None, rs) == |Repeats(rs)|
    ensures DupsC(SENTINEL, rs) == |RepeatsC(rs)|
    decreases |rs|
  {
    if rs != [] {
      hide Dups, DupsC, Repeats, RepeatsC, IsDup, IsDupC;
      var n := |rs| - 1;
      var before := rs[..n];
      assert rs == before + [rs[n]];
      DupsExactly(before);
      DupsSnoc(None, before, rs[n]);
      DupsCSnoc(SENTINEL, before, rs[n]);
      SentinelMatchesNothing(rs[n]);
      RepeatsLast(rs, n);
    }
  }

  // ---------------------------------------------------------------- where records are found

  /** A record stands at position `p`: the magic, the toggle, the sequence number and a timestamp, little-endian. */
  predicate StandsAt(chunk: seq<byte>, p: nat)
    requires p + 24 <= |chunk|
  {
    U32At(chunk, p) == 0xDEAD_BEEF
  }

  /** Position `i` lies inside one of the records found. */
  predicate Covered(ps: seq<nat>, i: nat) {
    exists k :: 0 <= k < |ps| && ps[k] <= i < ps[k] + 24
  }

  lemma RecordBytes(chunk: seq<byte>, p: nat)
    requires p + 24 <= |chunk|
    ensures MagicAt(chunk, p) == U32At(chunk, p)
    ensures RecAt(chunk, p) == Rec(U32At(chunk, p + 4), U64At(chunk, p + 8))
  {
    hide Get32, Get64, U32At, U64At;
    ReadsLittleEndian(chunk, p);
    ReadsLittleEndian(chunk, p + 4);
    ReadsLittleEndian(chunk, p + 8);
  }

  lemma ImageBytes(r: Rec, timestampNs: u64)
    ensures var b := RecordImage(r, timestampNs);
            && |b| == 24 && StandsAt(b, 0)
            && U32At(b, 4) == r.toggle && U64At(b, 8) == r.seqNo && U64At(b, 16) == timestampNs
  {
    hide Put32, Put64, Get32, Get64, U32At, U64At;
    var b := RecordImage(r, timestampNs);
    assert b[0..4] == Put32(REPRO_MAGIC) && b[4..8] == Put32(r.toggle);
    assert b[8..16] == Put64(r.seqNo) && b[16..24] == Put64(timestampNs);
    ReadsLittleEndian(b, 0);
    ReadsLittleEndian(b, 4);
    ReadsLittleEndian(b, 8);
    ReadsLittleEndian(b, 16);
  }

  /** Records stand at `ps`, without overlap, and nowhere in `gaps`, the positions they leave uncovered. */
  ghost predicate Scanned(chunk: seq<byte>, from: nat, ps: seq<nat>, gaps: set<nat>) {
    && (forall k :: 0 <= k < |ps| ==> from <= ps[k] && ps[k] + 24 <= |chunk| && StandsAt(chunk, ps[k]))
    && (forall i, k :: 0 <= i < k < |ps| ==> ps[i] + 24 <= ps[k])
    && (forall i: nat :: i in gaps <==> from <= i && i + 24 <= |chunk| && !Covered(ps, i))
    && (forall i <- gaps :: !StandsAt(chunk, i))
  }

  /** The records that stand at the positions `ps`. */
  ghost predicate RecordsAt(rs: seq<Rec>, chunk: seq<byte>, ps: seq<nat>) {
    && |rs| == |ps|
    && forall k :: 0 <= k < |ps| ==>
         ps[k] + 24 <= |chunk| && rs[k] == Rec(U32At(chunk, ps[k] + 4), U64At(chunk, ps[k] + 8))
  }

  lemma ScannedSkip(chunk: seq<byte>, from: nat, ps: seq<nat>, gaps: set<nat>)
    requires from + 24 <= |chunk| && !StandsAt(chunk, from) && Scanned(chunk, from + 1, ps, gaps)
    ensures from !in gaps && Scanned(chunk, from, ps, gaps + {from})
  {
    hide StandsAt;
    assert !Covered(ps, from);
  }

  lemma ScannedRecord(chunk: seq<byte>, from: nat, rest: seq<nat>, gaps: set<nat>)
    requires from + 24 <= |chunk| && StandsAt(chunk, from) && Scanned(chunk, from + 24, rest, gaps)
    ensures Scanned(chunk, from, [from] + rest, gaps)
  {
    hide StandsAt, Covered;
    forall i: nat
      ensures Covered([from] + rest, i) <==> from <= i < from + 24 || Covered(rest, i)
    {
      CoveredCons(from, rest, i);
    }
    forall i: nat | i < from + 24
      ensures !Covered(rest, i)
    {
      NotCovered(from, rest, i);
    }
  }

  lemma NotCovered(from: nat, rest: seq<nat>, i: nat)
    requires i < from + 24 && forall k :: 0 <= k < |rest| ==> from + 24 <= rest[k]
    ensures !Covered(rest, i)
  {
  }

  /**
   The scan, position by position: the records found do not overlap, each stands at its position, and no record
   stands at a position between them, where every byte is skipped and counted.
   */
  lemma {:induction false} ScanExactly(chunk: seq<byte>, from: nat) returns (ps: seq<nat>, gaps: set<nat>)
    ensures Scanned(chunk, from, ps, gaps)
    ensures RecordsAt(Accepted(chunk, from), chunk, ps)
    ensures Skipped(chunk, from) == |gaps|
    decreases |chunk| - from
  {
    hide MagicAt, RecAt, StandsAt, U32At, U64At, Accepted, Skipped, Covered;
    if from + 24 > |chunk| {
      ScanEnd(chunk, from);
      ps, gaps := [], {};
    } else {
      hide Scanned;
      ScanStep(chunk, from);
      RecordBytes(chunk, from);
      StandsMeans(chunk, from);
      if MagicAt(chunk, from) != REPRO_MAGIC {
        ps, gaps := ScanExactly(chunk, from + 1);
        ScannedSkip(chunk, from, ps, gaps);
        gaps := gaps + {from};
      } else {
        var rest;
        rest, gaps := ScanExactly(chunk, from + 24);
        ScannedRecord(chunk, from, rest, gaps);
        ps := [from] + rest;
      }
    }
  }

  lemma CoveredCons(from: nat, rest: seq<nat>, i: nat)
    ensures Covered([from] + rest, i) <==> from <= i < from + 24 || Covered(rest, i)
  {
    var ps := [from] + rest;
    assert ps[0] == from;
    if k :| 0 <= k < |rest| && rest[k] <= i < rest[k] + 24 {
      assert ps[k + 1] == rest[k];
    }
    if k :| 0 <= k < |ps| && ps[k] <= i < ps[k] + 24 {
      assert k > 0 ==> rest[k - 1] == ps[k];
    }
  }

  lemma StandsMeans(chunk: seq<byte>, p: nat)
    requires p + 24 <= |chunk|
    ensures StandsAt(chunk, p) <==> U32At(chunk, p) == REPRO_MAGIC
  {
    hide U32At;
  }

  // ---------------------------------------------------------------- chunking

  /** A whole number of records: the magic is right at every multiple of the record size. */
  predicate WholeRecords(chunk: seq<byte>)
    decreases |chunk|
  {
    chunk == [] || (|chunk| >= RECORD_SIZE && MagicAt(chunk, 0) == REPRO_MAGIC && WholeRecords(chunk[RECORD_SIZE..]))
  }

  lemma {:induction false} AcceptedFrom(chunk: seq<byte>, i: nat, j: nat)
    requires i + j <= |chunk|
    ensures Accepted(chunk, i + j) == Accepted(chunk[i..], j)
    ensures Skipped(chunk, i + j) == Skipped(chunk[i..], j)
    decreases |chunk| - j
  {
    if i + j + RECORD_SIZE <= |chunk| {
      assert chunk[i..][j..j + 4] == chunk[i + j..i + j + 4];
      assert chunk[i..][j + 4..j + 8] == chunk[i + j + 4..i + j + 8];
      assert chunk[i..][j + 8..j + 16] == chunk[i + j + 8..i + j + 16];
      AcceptedFrom(chunk, i, j + 1);
      AcceptedFrom(chunk, i, j + RECORD_SIZE);
    }
  }

  lemma {:induction false} AcceptedConcat(a: seq<byte>, b: seq<byte>)
    requires WholeRecords(a)
    ensures Accepted(a + b, 0) == Accepted(a, 0) + Accepted(b, 0)
    decreases |a|
  {
    hide RecAt, MagicAt, WholeRecords, Accepted, Skipped;
    if a == [] {
      assert a + b == b;
      ScanEnd(a, 0);
    } else {
      WholeStep(a);
      HeadSame(a, b);
      AcceptedHead(a);
      AcceptedHead(a + b);
      assert (a + b)[RECORD_SIZE..] == a[RECORD_SIZE..] + b;
      AcceptedConcat(a[RECORD_SIZE..], b);
    }
  }

  lemma AcceptedHead(a: seq<byte>)
    requires |a| >= RECORD_SIZE && MagicAt(a, 0) == REPRO_MAGIC
    ensures Accepted(a, 0) == [RecAt(a, 0)] + Accepted(a[RECORD_SIZE..], 0)
  {
    hide RecAt, MagicAt, Accepted, Skipped;
    ScanStep(a, 0);
    AcceptedFrom(a, RECORD_SIZE, 0);
  }

  lemma {:induction false} WholeConcat(a: seq<byte>, b: seq<byte>)
    requires WholeRecords(a) && WholeRecords(b)
    ensures WholeRecords(a + b)
    decreases |a|
  {
    hide RecAt, MagicAt, WholeRecords;
    if a == [] {
      assert a + b == b;
    } else {
      WholeStep(a);
      HeadSame(a, b);
      assert (a + b)[RECORD_SIZE..] == a[RECORD_SIZE..] + b;
      WholeConcat(a[RECORD_SIZE..], b);
      WholeCons(a + b);
    }
  }

  lemma WholeStep(a: seq<byte>)
    requires WholeRecords(a) && a != []
    ensures |a| >= RECORD_SIZE && MagicAt(a, 0) == REPRO_MAGIC && WholeRecords(a[RECORD_SIZE..])
  {
  }

  lemma WholeCons(a: seq<byte>)
    requires |a| >= RECORD_SIZE && MagicAt(a, 0) == REPRO_MAGIC && WholeRecords(a[RECORD_SIZE..])
    ensures WholeRecords(a)
  {
  }

  lemma HeadSame(a: seq<byte>, b: seq<byte>)
    requires |a| >= RECORD_SIZE
    ensures MagicAt(a + b, 0) == MagicAt(a, 0) && RecAt(a + b, 0) == RecAt(a, 0)
  {
    assert (a + b)[0..4] == a[0..4] && (a + b)[4..8] == a[4..8] && (a + b)[8..16] == a[8..16];
  }

  /** Resynchronisation: bytes among which no position shows the magic are skipped one by one, and the
      scan then continues as if they were not there. */
  lemma {:induction false} Resynchronises(garbage: seq<byte>, rest: seq<byte>)
    requires forall i :: 0 <= i < |garbage| && i + RECORD_SIZE <= |garbage + rest| ==>
               MagicAt(garbage + rest, i) != REPRO_MAGIC
    requires |rest| >= RECORD_SIZE
    ensures Accepted(garbage + rest, 0) == Accepted(rest, 0)
    ensures Skipped(garbage + rest, 0) == |garbage| + Skipped(rest, 0)
    decreases |garbage|
  {
    hide MagicAt, RecAt, Accepted, Skipped;
    if garbage == [] {
      assert garbage + rest == rest;
    } else {
      var chunk, tail := garbage + rest, garbage[1..] + rest;
      assert chunk[1..] == tail;
      ScanStep(chunk, 0);
      AcceptedFrom(chunk, 1, 0);
      forall i | 0 <= i < |garbage[1..]| && i + RECORD_SIZE <= |tail|
        ensures MagicAt(tail, i) != REPRO_MAGIC
      {
        MagicFrom(chunk, 1, i);
        assert MagicAt(chunk, 1 + i) != REPRO_MAGIC;
      }
      Resynchronises(garbage[1..], rest);
    }
  }

  lemma MagicFrom(chunk: seq<byte>, i: nat, j: nat)
    requires i + j + RECORD_SIZE <= |chunk|
    ensures MagicAt(chunk, i + j) == MagicAt(chunk[i..], j)
  {
    assert chunk[i..][j..j + 4] == chunk[i + j..i + j + 4];
  }

  function ConcatChunks(chunks: seq<seq<byte>>): seq<byte> {
    if chunks == [] then [] else chunks[0] + ConcatChunks(chunks[1..])
  }

  /** What a client has accepted after reading the chunks one after another. */
  function AcceptedAll(chunks: seq<seq<byte>>): seq<Rec> {
    if chunks == [] then [] else Accepted(chunks[0], 0) + AcceptedAll(chunks[1..])
  }

  /** If every read returns a whole number of records, how the stream is cut into reads does not matter. */
  lemma {:induction false} ChunkingIrrelevant(chunks: seq<seq<byte>>)
    requires forall c <- chunks :: WholeRecords(c)
    ensures WholeRecords(ConcatChunks(chunks))
    ensures AcceptedAll(chunks) == Accepted(ConcatChunks(chunks), 0)
  {
    hide Accepted, WholeRecords;
    if chunks == [] {
      EmptyWhole();
    } else {
      ChunkingIrrelevant(chunks[1..]);
      AcceptedConcat(chunks[0], ConcatChunks(chunks[1..]));
      WholeConcat(chunks[0], ConcatChunks(chunks[1..]));
    }
  }

  lemma EmptyWhole()
    ensures WholeRecords([]) && Accepted([], 0) == []
  {
  }

  // ---------------------------------------------------------------- the writer

  /** The record the writer produces in turn `i`. */
  function Written(i: nat): (r: Rec) {
    Rec(i / U64_SIZE % 2, i % U64_SIZE)
  }

  function WrittenUpTo(n: nat): (rs: seq<Rec>)
    ensures |rs| == n && forall i :: 0 <= i < n ==> rs[i] == Written(i)
  {
    seq(n, i requires 0 <= i < n => Written(i))
  }

  /** The kernel thread's loop, for the first `n` turns: a wrapping counter and a toggle that flips on each wrap. */
  method Writer(n: nat, times: seq<u64>) returns (rs: seq<Rec>, stream: seq<byte>)
    requires |times| == n
    ensures rs == WrittenUpTo(n)
    ensures stream == StreamImage(rs, times)
  {
    hide Written, StreamImage, RecordImage, WrittenUpTo;
    var seqNo: u64 := 0;
    var toggle: u32 := 0;
    WrittenFirst();
    rs, stream := [], [];
    for i := 0 to n
      invariant rs == WrittenUpTo(i) && Rec(toggle, seqNo) == Written(i)
      invariant stream == StreamImage(rs, times[..i])
    {
      var r := Rec(toggle, seqNo);
      WrittenNext(i);
      StreamSnoc(rs, times[..i], r, times[i]);
      assert times[..i] + [times[i]] == times[..i + 1];
      stream := stream + RecordImage(r, times[i]);
      rs := rs + [r];
      if seqNo == U64_MAX {
        toggle := if toggle == 0 then 1 else 0;
      }
      seqNo := (seqNo + 1) % U64_SIZE;
    }
    assert times[..n] == times;
  }

  function StreamImage(rs: seq<Rec>, times: seq<u64>): (b: seq<byte>)
    requires |rs| == |times|
  {
    if rs == [] then [] else RecordImage(rs[0], times[0]) + StreamImage(rs[1..], times[1..])
  }

  lemma {:induction false} StreamSnoc(rs: seq<Rec>, times: seq<u64>, r: Rec, t: u64)
    requires |rs| == |times|
    ensures StreamImage(rs + [r], times + [t]) == StreamImage(rs, times) + RecordImage(r, t)
  {
    hide RecordImage;
    if rs == [] {
      assert (rs + [r])[1..] == [] && (times + [t])[1..] == [];
    } else {
      assert (rs + [r])[1..] == rs[1..] + [r] && (times + [t])[1..] == times[1..] + [t];
      StreamSnoc(rs[1..], times[1..], r, t);
    }
  }

  lemma WrittenFirst()
    ensures Written(0) == Rec(0, 0) && WrittenUpTo(0) == [] && StreamImage([], []) == []
  {
  }

  lemma WrittenNext(i: nat)
    ensures Written(i + 1) ==
            if Written(i).seqNo == U64_MAX then Rec(1 - Written(i).toggle, 0)
            else Rec(Written(i).toggle, Written(i).seqNo + 1)
    ensures WrittenUpTo(i + 1) == WrittenUpTo(i) + [Written(i)]
  {
    var q, r := i / U64_SIZE, i % U64_SIZE;
    if r == U64_MAX {
      DivUnique(i + 1, q + 1, 0, U64_SIZE);
    } else {
      DivUnique(i + 1, q, r + 1, U64_SIZE);
    }
  }

  /** The clients read back what the writer wrote. */
  lemma {:induction false} StreamAccepted(rs: seq<Rec>, times: seq<u64>)
    requires |rs| == |times|
    ensures WholeRecords(StreamImage(rs, times)) && Accepted(StreamImage(rs, times), 0) == rs
  {
    if rs == [] {
      EmptyWhole();
    } else {
      hide WholeRecords, Accepted, RecordImage;
      ImageAccepted(rs[0], times[0]);
      StreamAccepted(rs[1..], times[1..]);
      AcceptedConcat(RecordImage(rs[0], times[0]), StreamImage(rs[1..], times[1..]));
      WholeConcat(RecordImage(rs[0], times[0]), StreamImage(rs[1..], times[1..]));
    }
  }

  lemma ImageAccepted(r: Rec, t: u64)
    ensures WholeRecords(RecordImage(r, t)) && Accepted(RecordImage(r, t), 0) == [r]
  {
    var b := RecordImage(r, t);
    assert b[0..4] == Put32(REPRO_MAGIC) && b[4..8] == Put32(r.toggle) && b[8..16] == Put64(r.seqNo);
    assert Accepted(b, RECORD_SIZE) == [];
    assert b[RECORD_SIZE..] == [];
  }

  /** Exactly when written record `j` after written record `i` is reported, by their distance
      `d = a * 2^64 + b`: if adding `b` does not wrap the counter, only for `b = 0` and even `a`; if it does
      wrap, for odd `a`. */
  lemma ReportedExactly(i: nat, j: nat)
    ensures var d := j - i;
            IsDup(Written(i), Written(j)) <==>
            if i % U64_SIZE + d % U64_SIZE < U64_SIZE then d % U64_SIZE == 0 && d / U64_SIZE % 2 == 0
            else d / U64_SIZE % 2 == 1
  {
    var q, r := i / U64_SIZE, i % U64_SIZE;
    var a, b := (j - i) / U64_SIZE, (j - i) % U64_SIZE;
    assert j == (q + a) * U64_SIZE + r + b;
    if r + b < U64_SIZE {
      DivUnique(j, q + a, r + b, U64_SIZE);
      SameParity(q, a);
    } else {
      DivUnique(j, q + a + 1, r + b - U64_SIZE, U64_SIZE);
      SameParity(q, a + 1);
    }
  }

  lemma SameParity(q: int, a: int)
    ensures (q + a) % 2 == q % 2 <==> a % 2 == 0
  {
  }

  /** The distances at which no record is ever reported, wherever the jump starts: an even number of whole
      wraps and a part of one, or an odd number of whole wraps exactly. */
  ghost predicate SafeDistance(d: int) {
    forall i: nat, j: nat :: j - i == d ==> !IsDup(Written(i), Written(j))
  }

  lemma SafeExactly(d: int)
    ensures SafeDistance(d) <==> (d % U64_SIZE != 0 <==> d / U64_SIZE % 2 == 0)
  {
    hide IsDup, Written;
    if d % U64_SIZE != 0 <==> d / U64_SIZE % 2 == 0 {
      forall i: nat, j: nat | j - i == d
        ensures !IsDup(Written(i), Written(j))
      {
        ReportedExactly(i, j);
      }
    } else {
      // the last record before a wrap, late enough for the jump to stay in range
      var q: nat := if d < 0 then -d else 0;
      var i: nat := q * U64_SIZE + U64_MAX;
      var j: nat := i + d;
      DivUnique(i, q, U64_MAX, U64_SIZE);
      ReportedExactly(i, j);
      assert IsDup(Written(i), Written(j)) && j - i == d;
    }
  }

  /** Moving forward by at most 2^64 is never reported. */
  lemma ForwardNotReported(i: nat, j: nat)
    requires i < j <= i + U64_SIZE
    ensures !IsDup(Written(i), Written(j))
  {
    hide IsDup, Written;
    ReportedExactly(i, j);
  }

  /** The bound is tight: one step further, the jump from the last record before a wrap is reported. */
  lemma TooFarIsReported()
    ensures IsDup(Written(U64_MAX), Written(U64_MAX + U64_SIZE + 1)) && !SafeDistance(U64_SIZE + 1)
  {
    SafeExactly(U64_SIZE + 1);
    ReportedExactly(U64_MAX, U64_MAX + U64_SIZE + 1);
  }

  /** Re-reading a record, or any earlier one with the same wrap count, is always reported. */
  lemma StaleReported(i: nat, j: nat)
    requires j <= i && j / U64_SIZE == i / U64_SIZE
    ensures IsDup(Written(i), Written(j))
  {
  }

  /** A strictly forward selection of written records, with gaps of at most 2^64. */
  ghost predicate ForwardSelection(at: seq<nat>) {
    forall k :: 0 <= k < |at| - 1 ==> at[k] < at[k + 1] <= at[k] + U64_SIZE
  }

  /** No false alarms: on any such selection, as when records are dropped, neither client reports anything. */
  lemma NoFalseAlarms(at: seq<nat>)
    requires ForwardSelection(at)
    ensures var rs := seq(|at|, k requires 0 <= k < |at| => Written(at[k]));
            Dups(None, rs) == 0 && DupsC(SENTINEL, rs) == 0
  {
    hide Dups, DupsC, AfterMax, IsDup, Written;
    var rs := seq(|at|, k requires 0 <= k < |at| => Written(at[k]));
    forall k | 0 <= k < |rs| - 1
      ensures !IsDup(rs[k], rs[k + 1])
    {
      ForwardNotReported(at[k], at[k + 1]);
    }
    NoDupsAdjacent(None, rs);
    ClientsDiffer(rs);
  }

  /** The C client's sentinel hides a real duplicate of the last sequence number. */
  lemma SentinelHidesDuplicate()
    ensures var rs := [Rec(0, U64_MAX), Rec(0, U64_MAX)];
            Dups(None, rs) == 1 && DupsC(SENTINEL, rs) == 0
  {
    var r := Rec(0, U64_MAX);
    assert [r, r][1..] == [r] && [r][1..] == [];
    assert Dups(Some(r), [r]) == 1 + Dups(Some(r), []) == 1;
    assert DupsC(r, [r]) == 0 + DupsC(r, []) == 0;
  }
}
