/**
 `RecordReader` of `tracing/nvme-trace/src/lib.rs`: framing a byte stream into
 records, under any finite schedule of short reads, interrupts and failures.
 */
module Reader {
  import opened Bytes
  import opened Records

  /** What the environment makes of one `read` call. */
  datatype ReadStep = Interrupt | Short(limit: nat) | Failing

  datatype ReadOutcome = Count(n: nat) | WasInterrupted | Failed

  /** A finite stream behind `std::io::Read`. Once the schedule is used up, reads are full. */
  class ByteSource {
    const data: seq<byte>
    var pos: nat
    var schedule: seq<ReadStep>

    constructor (data: seq<byte>, schedule: seq<ReadStep>)
      ensures Valid() && this.data == data && pos == 0 && this.schedule == schedule
    {
      this.data := data;
      this.pos := 0;
      this.schedule := schedule;
    }

    ghost predicate Valid()
      reads this
    {
      pos <= |data|
    }

    ghost function Rest(): seq<byte>
      reads this
      requires Valid()
    {
      data[pos..]
    }

    /** Zero bytes are returned only for an empty buffer or at the end of the data. */
    method Read(buf: array<byte>, lo: nat) returns (r: ReadOutcome)
      requires Valid() && lo <= buf.Length
      modifies this, buf
      ensures Valid()
      ensures r.Count? ==>
        && lo + r.n <= buf.Length && r.n <= |old(Rest())|
        && (r.n == 0 <==> lo == buf.Length || old(Rest()) == [])
        && buf[..] == old(buf[..lo]) + old(Rest())[..r.n] + old(buf[..])[lo + r.n..]
        && Rest() == old(Rest())[r.n..]
      ensures r.WasInterrupted? ==> pos == old(pos) && buf[..] == old(buf[..])
      ensures r.Failed? ==> Failing in old(schedule)
      ensures forall x <- schedule :: x in old(schedule)
      ensures |schedule| <= |old(schedule)| && (r.WasInterrupted? ==> |schedule| < |old(schedule)|)
    {
      var want := buf.Length - lo;
      if |schedule| > 0 {
        var step := schedule[0];
        schedule := schedule[1..];
        match step {
          case Interrupt => return WasInterrupted;
          case Failing => return Failed;
          case Short(limit) => want := if limit + 1 < want then limit + 1 else want;
        }
      }
      var n := if |data| - pos < want then |data| - pos else want;
      forall i | 0 <= i < n {
        buf[lo + i] := data[pos + i];
      }
      pos := pos + n;
      r := Count(n);
    }
  }

  function Min(a: nat, b: nat): nat {
    if a < b then a else b
  }

  /** Fills `buf[lo..]` as far as the stream goes; interrupts are retried, other errors are final. */
  method ReadExactOrEof(src: ByteSource, buf: array<byte>, lo: nat) returns (r: Result<nat>)
    requires src.Valid() && lo <= buf.Length
    modifies src, buf
    ensures src.Valid()
    ensures forall x <- src.schedule :: x in old(src.schedule)
    ensures r.Err? ==> r.error == IoError && Failing in old(src.schedule)
    ensures r.Ok? ==>
      && r.value == Min(buf.Length - lo, |old(src.Rest())|)
      && buf[..lo] == old(buf[..lo])
      && buf[lo..lo + r.value] == old(src.Rest())[..r.value]
      && src.Rest() == old(src.Rest())[r.value..]
  {
    ghost var rest := src.Rest();
    ghost var schedule := src.schedule;
    var total := 0;
    while lo + total < buf.Length
      invariant src.Valid() && lo + total <= buf.Length && total <= |rest|
      invariant forall x <- src.schedule :: x in schedule
      invariant buf[..lo] == old(buf[..lo])
      invariant buf[lo..lo + total] == rest[..total]
      invariant src.Rest() == rest[total..]
      decreases buf.Length - lo - total, |src.schedule|
    {
      var step := src.Read(buf, lo + total);
      match step {
        case Count(n) =>
          if n == 0 {
            return Ok(total);
          }
          total := total + n;
        case WasInterrupted =>
        case Failed => return Err(IoError);
      }
    }
    r := Ok(total);
  }

  /** A zero-filled buffer of `len` bytes that starts with the given ones. */
  method Resized(start: array<byte>, len: nat) returns (bytes: array<byte>)
    requires start.Length <= len
    ensures fresh(bytes) && bytes.Length == len
    ensures bytes[..start.Length] == start[..]
  {
    bytes := new byte[len](_ => 0);
    forall i | 0 <= i < start.Length {
      bytes[i] := start[i];
    }
  }

  lemma JoinPayload(rest: seq<byte>, bytes: seq<byte>, len: nat)
    requires HEADER_LEN <= len <= |rest| && |bytes| == len
    requires bytes[..HEADER_LEN] == rest[..HEADER_LEN]
    requires bytes[HEADER_LEN..len] == rest[HEADER_LEN..][..len - HEADER_LEN]
    ensures bytes == rest[..len]
    ensures rest[HEADER_LEN..][len - HEADER_LEN..] == rest[len..]
  {
    assert bytes == bytes[..HEADER_LEN] + bytes[HEADER_LEN..len];
  }

  // ---------------------------------------------------------------- one record

  datatype Step = Done | Rec(raw: RawRecord) | Fail(error: TraceError)

  /** What the next record of the remaining stream `s` is, at stream offset `offset`. */
  function Next(s: seq<byte>, offset: nat): (step: Step)
    ensures step.Done? <==> s == []
    ensures step.Fail? ==> step.error != IoError
    ensures step.Rec? ==>
      && COMPLETE_LEN <= |step.raw.bytes| <= |s|
      && step.raw.bytes == s[..|step.raw.bytes|]
      && step.raw.offset == offset
  {
    if s == [] then Done
    else if |s| < HEADER_LEN then Fail(TruncatedHeader(offset, |s|))
    else
      var h := ParseHeader(s[..HEADER_LEN], offset);
      if h.Err? then Fail(h.error)
      else
        var len := h.value.len;
        if len < HEADER_LEN then Fail(InvalidLength(offset, h.value.recordType, len, ShorterThanHeader))
        else if |s| < len then Fail(TruncatedPayload(offset, len - HEADER_LEN, |s| - HEADER_LEN))
        else
          var raw := ParseRecordBytes(s[..len], offset);
          if raw.Err? then Fail(raw.error) else Rec(raw.value)
  }

  /** How far the reader's own offset moves on an error: only truncation advances it. */
  function ErrorAdvance(e: TraceError): nat {
    match e
    case TruncatedHeader(_, got) => got
    case TruncatedPayload(_, _, got) => HEADER_LEN + got
    case _ => 0
  }

  class RecordReader {
    const inner: ByteSource
    var offset: nat

    constructor (inner: ByteSource)
      ensures this.inner == inner && offset == 0
    {
      this.inner := inner;
      this.offset := 0;
    }

    /** The step the stream dictates, whatever the schedule, unless the source itself fails. */
    method NextRecord() returns (r: Result<Option<RawRecord>>)
      requires inner.Valid()
      modifies this, inner
      ensures inner.Valid()
      ensures forall x <- inner.schedule :: x in old(inner.schedule)
      ensures r == Err(IoError) ==> Failing in old(inner.schedule)
      ensures r != Err(IoError) ==>
        match Next(old(inner.Rest()), old(offset))
        case Done => r == Ok(None) && inner.Rest() == [] && offset == old(offset)
        case Rec(raw) =>
          r == Ok(Some(raw)) && inner.Rest() == old(inner.Rest())[|raw.bytes|..]
          && offset == old(offset) + |raw.bytes|
        case Fail(e) => r == Err(e) && offset == old(offset) + ErrorAdvance(e)
    {
      hide ParseRecordBytes, HeaderOf;
      ghost var rest := inner.Rest();
      var at := offset;
      var headerBytes := new byte[HEADER_LEN];
      var got :- ReadExactOrEof(inner, headerBytes, 0);
      if got == 0 {
        return Ok(None);
      }
      if got != HEADER_LEN {
        offset := offset + got;
        return Err(TruncatedHeader(at, got));
      }
      assert headerBytes[..] == headerBytes[0..HEADER_LEN] == rest[..HEADER_LEN];
      var header :- ParseHeader(headerBytes[..], at);
      var len := header.len;
      if len < HEADER_LEN {
        return Err(InvalidLength(at, header.recordType, len, ShorterThanHeader));
      }
      var bytes := Resized(headerBytes, len);
      var payloadLen := len - HEADER_LEN;
      got :- ReadExactOrEof(inner, bytes, HEADER_LEN);
      if got != payloadLen {
        offset := offset + HEADER_LEN + got;
        return Err(TruncatedPayload(at, payloadLen, got));
      }
      JoinPayload(rest, bytes[..], len);
      var record :- ParseRecordBytes(bytes[..], at);
      offset := offset + len;
      r := Ok(Some(record));
    }
  }

  /** The next step on raw bytes: the errors of framing come first, each with what was there, and only
      truncation uses up the stream. */
  lemma NextExactly(s: seq<byte>, offset: nat)
    ensures var step := Next(s, offset);
            if s == [] then step == Done
            else if |s| < 24 then step == Fail(TruncatedHeader(offset, |s|))
            else if U32At(s, 0) != 0x4e56_4d45 then step == Fail(InvalidMagic(offset, U32At(s, 0)))
            else if s[4] != 1 then step == Fail(UnsupportedVersion(offset, s[4]))
            else
              var len := U16At(s, 6);
              if len < 24 then step == Fail(InvalidLength(offset, s[5], len, ShorterThanHeader))
              else if |s| < len then step == Fail(TruncatedPayload(offset, len - 24, |s| - 24))
              else
                match ParseRecordBytes(s[..len], offset)
                case Ok(raw) => step == Rec(raw) && raw.bytes == s[..len]
                case Err(e) => step == Fail(e)
    ensures Next(s, offset).Fail? ==>
              var e := Next(s, offset).error;
              ErrorAdvance(e) == if e.TruncatedHeader? || e.TruncatedPayload? then |s| else 0
  {
    hide ParseRecordBytes, HeaderOf, U16At, U32At, U64At;
    if |s| >= 24 {
      HeaderBytes(s);
      if 24 <= U16At(s, 6) <= |s| {
        var b := s[..U16At(s, 6)];
        assert b[..24] == s[..24];
        HeaderBytes(b);
        NoHeaderError(b, offset);
      }
    }
  }

  /** With a good header, parsing does not report truncation. */
  lemma NoHeaderError(b: seq<byte>, offset: nat)
    requires |b| >= 24
    ensures var r := ParseRecordBytes(b, offset);
            r.Err? ==> !r.error.TruncatedHeader? && !r.error.TruncatedPayload?
  {
  }

  // ---------------------------------------------------------------- whole streams

  datatype Decoded = Decoded(records: seq<RawRecord>, end: Option<TraceError>)

  /** All records up to the end of the stream or the first error. */
  function Decode(s: seq<byte>, offset: nat): (d: Decoded)
    decreases |s|
  {
    match Next(s, offset)
    case Done => Decoded([], None)
    case Fail(e) => Decoded([], Some(e))
    case Rec(raw) =>
      var rest := Decode(s[|raw.bytes|..], offset + |raw.bytes|);
      Decoded([raw] + rest.records, rest.end)
  }

  lemma DecodeStep(s: seq<byte>, offset: nat, raw: RawRecord, rest: seq<byte>)
    requires Next(s, offset) == Rec(raw) && rest == s[|raw.bytes|..]
    ensures var d := Decode(rest, offset + |raw.bytes|);
            Decode(s, offset) == Decoded([raw] + d.records, d.end)
  {
    hide Next;
  }

  function ConcatBytes(rs: seq<RawRecord>): (b: seq<byte>) {
    if rs == [] then [] else rs[0].bytes + ConcatBytes(rs[1..])
  }

  predicate Clean(s: seq<byte>) {
    Decode(s, 0).end == None
  }

  /** The loop that loads a trace file: every record, or the first error. */
  method ReadAll(reader: RecordReader) returns (r: Result<seq<RawRecord>>)
    requires reader.inner.Valid()
    modifies reader, reader.inner
    ensures reader.inner.Valid()
    ensures r == Err(IoError) ==> Failing in old(reader.inner.schedule)
    ensures r != Err(IoError) ==>
      var d := Decode(old(reader.inner.Rest()), old(reader.offset));
      r == if d.end == None then Ok(d.records) else Err(d.end.value)
  {
    hide Next;
    ghost var whole := Decode(reader.inner.Rest(), reader.offset);
    ghost var schedule := reader.inner.schedule;
    var records := [];
    while true
      invariant reader.inner.Valid()
      invariant forall x <- reader.inner.schedule :: x in schedule
      invariant var d := Decode(reader.inner.Rest(), reader.offset);
                whole == Decoded(records + d.records, d.end)
      decreases |reader.inner.Rest()|
    {
      var next :- reader.NextRecord();
      if next == None {
        assert records + [] == records;
        return Ok(records);
      }
      records := records + [next.value];
    }
  }

  lemma DecodeStop(s: seq<byte>, offset: nat)
    requires !Next(s, offset).Rec?
    ensures Decode(s, offset) ==
            Decoded([], if Next(s, offset).Done? then None else Some(Next(s, offset).error))
  {
    hide Next;
  }

  /** Framing: the records' bytes tile the consumed prefix of the stream, and reading ends
      without error exactly at the end of the stream on a record boundary. */
  lemma {:induction false} DecodeFraming(s: seq<byte>, offset: nat)
    ensures var d := Decode(s, offset);
            var n := |ConcatBytes(d.records)|;
            && n <= |s| && ConcatBytes(d.records) == s[..n]
            && (d.end == None <==> n == |s|)
            && (d.end != None ==> Next(s[n..], offset + n) == Fail(d.end.value))
            && |d.records| * COMPLETE_LEN <= n
    decreases |s|
  {
    hide Next, Decode, ConcatBytes;
    if Next(s, offset).Rec? {
      var raw := Next(s, offset).raw;
      var m := |raw.bytes|;
      var rest := s[m..];
      DecodeStep(s, offset, raw, rest);
      DecodeFraming(rest, offset + m);
      var tail := Decode(rest, offset + m).records;
      ConcatCons(raw, tail);
      var n := |ConcatBytes(tail)|;
      assert rest[n..] == s[m + n..];
      assert s[..m] + rest[..n] == s[..m + n];
    } else {
      DecodeStop(s, offset);
      ConcatNil();
      assert s[0..] == s;
    }
  }

  /** Every record carries the number of bytes read before it. */
  lemma {:induction false} DecodeOffsets(s: seq<byte>, offset: nat, k: nat)
    requires k < |Decode(s, offset).records|
    ensures Decode(s, offset).records[k].offset == offset + |ConcatBytes(Decode(s, offset).records[..k])|
    decreases |s|
  {
    hide Next, Decode, ConcatBytes;
    if Next(s, offset).Rec? {
      var raw := Next(s, offset).raw;
      var rest := s[|raw.bytes|..];
      DecodeStep(s, offset, raw, rest);
      var tail := Decode(rest, offset + |raw.bytes|).records;
      if k == 0 {
        ConcatNil();
      } else {
        DecodeOffsets(rest, offset + |raw.bytes|, k - 1);
        ConcatCons(raw, tail[..k - 1]);
        assert ([raw] + tail)[..k] == [raw] + tail[..k - 1];
      }
    } else {
      DecodeStop(s, offset);
    }
  }

  lemma ConcatNil()
    ensures ConcatBytes([]) == []
  {
  }

  lemma ConcatCons(raw: RawRecord, rest: seq<RawRecord>)
    ensures ConcatBytes([raw] + rest) == raw.bytes + ConcatBytes(rest)
  {
    assert ([raw] + rest)[1..] == rest;
  }

  lemma NextOfPrefix(a: seq<byte>, b: seq<byte>, offset: nat)
    requires Next(a, offset).Rec?
    ensures Next(a + b, offset) == Next(a, offset)
  {
    assert (a + b)[..HEADER_LEN] == a[..HEADER_LEN];
    var len := Get16(a[6..8]);
    assert a[..HEADER_LEN][6..8] == a[6..8];
    assert (a + b)[..len] == a[..len];
  }

  lemma NextOfLonger(s: seq<byte>, offset: nat, k: nat)
    requires Next(s, offset).Rec? && |Next(s, offset).raw.bytes| <= k <= |s|
    ensures Next(s[..k], offset) == Next(s, offset)
  {
    hide ParseRecordBytes;
    var len := |Next(s, offset).raw.bytes|;
    assert s[..k][..HEADER_LEN] == s[..HEADER_LEN];
    assert s[..k][..len] == s[..len];
  }

  /** Reading a clean stream followed by more bytes gives the clean stream's records first. */
  lemma {:induction false} DecodeConcat(a: seq<byte>, b: seq<byte>, offset: nat)
    requires Decode(a, offset).end == None
    ensures var rest := Decode(b, offset + |a|);
            Decode(a + b, offset) == Decoded(Decode(a, offset).records + rest.records, rest.end)
    decreases |a|
  {
    hide Next, Decode;
    if a == [] {
      assert a + b == b;
      DecodeEmpty(offset);
    } else {
      CleanStarts(a, offset);
      var raw := Next(a, offset).raw;
      var tail := a[|raw.bytes|..];
      NextOfPrefix(a, b, offset);
      assert (a + b)[|raw.bytes|..] == tail + b;
      DecodeStep(a, offset, raw, tail);
      DecodeStep(a + b, offset, raw, tail + b);
      DecodeConcat(tail, b, offset + |raw.bytes|);
    }
  }

  lemma DecodeEmpty(offset: nat)
    ensures Decode([], offset) == Decoded([], None)
  {
    hide Next;
  }

  /** Only a record's position depends on where the stream starts. */
  function Moved(raw: RawRecord, shift: nat): RawRecord {
    raw.(offset := raw.offset + shift)
  }

  lemma ParseMoved(b: seq<byte>, offset: nat, shift: nat)
    ensures ParseRecordBytes(b, offset).Ok? <==> ParseRecordBytes(b, offset + shift).Ok?
    ensures ParseRecordBytes(b, offset).Ok? ==>
              ParseRecordBytes(b, offset + shift).value == Moved(ParseRecordBytes(b, offset).value, shift)
  {
  }

  lemma NextMoved(s: seq<byte>, offset: nat, shift: nat)
    ensures var n, m := Next(s, offset), Next(s, offset + shift);
            && (n.Rec? <==> m.Rec?) && (n.Fail? <==> m.Fail?)
            && (n.Rec? ==> m.raw == Moved(n.raw, shift))
  {
    hide ParseRecordBytes;
    if |s| >= HEADER_LEN && ParseHeader(s[..HEADER_LEN], offset).Ok? {
      var len := HeaderOf(s[..HEADER_LEN]).len;
      if HEADER_LEN <= len <= |s| {
        ParseMoved(s[..len], offset, shift);
      }
    }
  }

  lemma {:induction false} DecodeMoved(s: seq<byte>, offset: nat, shift: nat)
    ensures var d, e := Decode(s, offset), Decode(s, offset + shift);
            && (d.end == None <==> e.end == None)
            && |d.records| == |e.records|
            && forall k :: 0 <= k < |d.records| ==> e.records[k] == Moved(d.records[k], shift)
    decreases |s|
  {
    hide Next;
    NextMoved(s, offset, shift);
    if Next(s, offset).Rec? {
      var len := |Next(s, offset).raw.bytes|;
      DecodeMoved(s[len..], offset + len, shift);
    }
  }

  lemma NextOfCut(s: seq<byte>, offset: nat, k: nat)
    requires Next(s, offset).Rec? && 0 < k < |Next(s, offset).raw.bytes|
    ensures Next(s[..k], offset) ==
            Fail(if k < HEADER_LEN then TruncatedHeader(offset, k)
                 else TruncatedPayload(offset, |Next(s, offset).raw.bytes| - HEADER_LEN, k - HEADER_LEN))
  {
    hide ParseRecordBytes;
    if k >= HEADER_LEN {
      assert s[..k][..HEADER_LEN] == s[..HEADER_LEN];
    }
  }

  /** A clean stream cut at any byte `k`: the records that fit are still read, and what follows is
      the end of the stream on a boundary and otherwise a truncation error naming the bytes left. */
  lemma {:induction false} DecodeCut(s: seq<byte>, offset: nat, k: nat) returns (m: nat)
    requires Decode(s, offset).end == None && k <= |s|
    ensures var all, cut := Decode(s, offset).records, Decode(s[..k], offset);
            && m <= |all| && cut.records == all[..m]
            && var n := |ConcatBytes(all[..m])|;
            && n <= k && (k == n ==> cut.end == None)
            && (k > n ==>
                  && m < |all| && k < n + |all[m].bytes|
                  && cut.end ==
                     Some(if k - n < HEADER_LEN then TruncatedHeader(offset + n, k - n)
                          else TruncatedPayload(offset + n, |all[m].bytes| - HEADER_LEN, k - n - HEADER_LEN)))
    decreases |s|
  {
    hide Next, Decode, ConcatBytes;
    var all := Decode(s, offset).records;
    if k == 0 {
      ConcatNil();
      assert s[..0] == [];
      DecodeEmpty(offset);
      assert all[..0] == [];
      return 0;
    }
    assert Next(s, offset).Rec? by {
      CleanStarts(s, offset);
    }
    var raw := Next(s, offset).raw;
    var len := |raw.bytes|;
    var rest := s[len..];
    var d := Decode(rest, offset + len);
    DecodeStep(s, offset, raw, rest);
    if k < len {
      m := 0;
      NextOfCut(s, offset, k);
      DecodeStop(s[..k], offset);
      ConcatNil();
    } else {
      var j := DecodeCut(rest, offset + len, k - len);
      m := j + 1;
      NextOfLonger(s, offset, k);
      assert s[..k][len..] == rest[..k - len];
      DecodeStep(s[..k], offset, raw, rest[..k - len]);
      assert all[..m] == [raw] + d.records[..j];
      ConcatCons(raw, d.records[..j]);
      assert j < |d.records| ==> all[m] == d.records[j];
    }
  }

  lemma CleanStarts(s: seq<byte>, offset: nat)
    requires s != [] && Decode(s, offset).end == None
    ensures Next(s, offset).Rec?
  {
    hide Next;
  }
}
