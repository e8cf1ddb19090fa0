/**
 What a ring-buffer page means. The reference is the layout documented at
 `parse_page_events`: events printed one after another; the decoder is proved to
 invert that printing, and to read every page as some such printing.
 */
module Pages {
  import opened Bytes
  import opened Records
  import opened Ftrace
  import opened PageDecode

  datatype RingEvent =
    | Padding(delta: nat)
    | TimeStamp(delta: nat, abs: u64)
    | TimeExtend(delta: nat, upper: u32)
    | Short(delta: nat, words: seq<byte>)
    | Long(delta: nat, data: seq<byte>)

  predicate EventWf(e: RingEvent) {
    && e.delta < 0x800_0000
    && (e.Short? ==> |e.words| % 4 == 0 && 1 <= |e.words| / 4 <= 28)
    && (e.Long? ==> 1 <= |e.data| < U32_SIZE)
  }

  predicate EventsWf(es: seq<RingEvent>) {
    forall e <- es :: EventWf(e)
  }

  function TypeLen(e: RingEvent): nat {
    match e
    case Padding(_) => 31
    case TimeStamp(_, _) => 30
    case TimeExtend(_, _) => 29
    case Short(_, words) => |words| / 4
    case Long(_, _) => 0
  }

  /** The header word: 5 bits of type_len, 27 bits of time delta above them. */
  function HeaderWord(e: RingEvent): u32
    requires EventWf(e)
  {
    e.delta * 32 + TypeLen(e)
  }

  function Body(e: RingEvent): seq<byte>
    requires EventWf(e)
  {
    match e
    case Padding(_) => []
    case TimeStamp(_, abs) => Put64(abs)
    case TimeExtend(_, upper) => Put32(upper)
    case Short(_, words) => words
    case Long(_, data) => Put32(|data|) + data
  }

  function PrintEvent(e: RingEvent): (b: seq<byte>)
    requires EventWf(e)
    ensures |b| >= 4
  {
    Put32(HeaderWord(e)) + Body(e)
  }

  function Print(es: seq<RingEvent>): (b: seq<byte>)
    requires EventsWf(es)
  {
    if es == [] then [] else PrintEvent(es[0]) + Print(es[1..])
  }

  /** The running timestamp after an event. */
  function Tick(e: RingEvent, ts: u64): u64 {
    match e
    case TimeStamp(_, abs) => abs
    case TimeExtend(delta, upper) => (ts + upper * 0x800_0000 + delta) % 0x1_0000_0000_0000_0000
    case _ => (ts + e.delta) % 0x1_0000_0000_0000_0000
  }

  function Payload(e: RingEvent): seq<byte>
    requires e.Short? || e.Long?
  {
    if e.Short? then e.words else e.data
  }

  /** The data events with their running timestamps; padding ends the page. */
  function Stamp(es: seq<RingEvent>, ts: u64): (r: seq<Stamped>) {
    if es == [] || es[0].Padding? then []
    else
      var ts' := Tick(es[0], ts);
      (if es[0].Short? || es[0].Long? then [Stamped(ts', Payload(es[0]))] else []) + Stamp(es[1..], ts')
  }

  // ---------------------------------------------------------------- decoding inverts printing

  /** The header word and the body of a printed event, before anything else. */
  lemma PrintedParts(e: RingEvent, rest: seq<byte>)
    requires EventWf(e)
    ensures var d := PrintEvent(e) + rest;
            && Header32(d) % 32 == TypeLen(e) && Header32(d) / 32 == e.delta
            && d[4..] == Body(e) + rest && |PrintEvent(e)| == 4 + |Body(e)|
            && d[|PrintEvent(e)|..] == rest
  {
    hide Put32, Put64, Get32, Get64, Body;
    var d := PrintEvent(e) + rest;
    assert d[..4] == Put32(HeaderWord(e));
    assert d[4..] == Body(e) + rest;
  }

  /** One turn over a printed event and anything after it. */
  lemma TurnOfPrinted(e: RingEvent, rest: seq<byte>, ts: u64)
    requires EventWf(e)
    ensures var d := PrintEvent(e) + rest;
            var t := NextTurn(d, ts);
            && (e.Padding? <==> t.Stop?)
            && (!e.Padding? ==> t.n == |PrintEvent(e)| && d[t.n..] == rest)
            && (e.TimeStamp? || e.TimeExtend? ==> t == Time(t.n, Tick(e, ts)))
            && (e.Short? || e.Long? ==> t == Event(t.n, Stamped(Tick(e, ts), Payload(e))))
  {
    hide Put32, Put64, Get32, Get64, PrintEvent, HeaderWord;
    PrintedParts(e, rest);
    var body := Body(e) + rest;
    match e {
      case TimeStamp(_, abs) => assert body[..8] == Put64(abs);
      case TimeExtend(_, upper) => assert body[..4] == Put32(upper);
      case Short(_, words) => assert body[..|words|] == words;
      case Long(_, data) =>
        assert body[..4] == Put32(|data|);
        assert body[4..4 + |data|] == data;
      case Padding(_) =>
    }
  }

  /** Decoding a printed event list gives its data events, stamped with the running fold. */
  lemma {:induction false} ScanPrint(es: seq<RingEvent>, ts: u64)
    requires EventsWf(es)
    ensures Scan(Print(es), ts) == Stamp(es, ts)
  {
    hide NextTurn, PrintEvent, EventWf, Tick;
    if es != [] {
      var rest := Print(es[1..]);
      TurnOfPrinted(es[0], rest, ts);
      if !es[0].Padding? {
        ScanPrint(es[1..], Tick(es[0], ts));
      }
    }
  }

  /** A page: its timestamp, the committed count, four ignored bytes, the data, and filler. */
  predicate PageOf(page: seq<byte>, ts: u64, data: seq<byte>) {
    && |page| == 4096
    && |data| <= 4080
    && page[0..8] == Put64(ts)
    && page[8..12] == Put32(|data|)
    && page[16..16 + |data|] == data
  }

  /** The page round trip: every list of well-formed events that fits a page comes back, with its timestamps. */
  lemma PageRoundTrip(page: seq<byte>, ts: u64, es: seq<RingEvent>)
    requires EventsWf(es) && PageOf(page, ts, Print(es))
    ensures PageEvents(page) == Stamp(es, ts)
  {
    hide Scan, Stamp, Print;
    ScanPrint(es, ts);
    if Print(es) == [] {
      PrintedNothing(es);
      assert Stamp([], ts) == [] by { StampNil(ts); }
    }
  }

  lemma PrintedNothing(es: seq<RingEvent>)
    requires EventsWf(es) && Print(es) == []
    ensures es == []
  {
    hide PrintEvent, EventWf;
  }

  lemma StampNil(ts: u64)
    ensures Stamp([], ts) == []
  {
  }

  // ---------------------------------------------------------------- every page is a printing

  /** The event at the front of `d`, if a whole one is there. */
  function LexEvent(d: seq<byte>): (e: Option<RingEvent>)
  {
    if |d| < 4 then None
    else
      var kind := Header32(d) % 32;
      var delta := Header32(d) / 32;
      var body := d[4..];
      if kind == 31 then Some(Padding(delta))
      else if kind == 30 then
        if |body| < 8 then None else Some(TimeStamp(delta, Get64(body[..8])))
      else if kind == 29 then
        if |body| < 4 then None else Some(TimeExtend(delta, Header32(body)))
      else if kind == 0 then
        if |body| < 4 then None
        else
          var n := Header32(body);
          if n == 0 || 4 + n > |body| then None else Some(Long(delta, body[4..4 + n]))
      else if kind * 4 > |body| then None
      else Some(RingEvent.Short(delta, body[..kind * 4]))
  }

  lemma LexPrints(d: seq<byte>)
    requires LexEvent(d).Some?
    ensures EventWf(LexEvent(d).value) && PrintEvent(LexEvent(d).value) <= d
  {
    hide Put32, Put64, Get32, Get64;
    var e := LexEvent(d).value;
    var body := d[4..];
    PutGet32(d[..4]);
    assert HeaderWord(e) == Header32(d);
    assert d == Put32(HeaderWord(e)) + body;
    if e.TimeStamp? {
      PutGet64(body[..8]);
    } else if e.TimeExtend? || e.Long? {
      PutGet32(body[..4]);
    }
    assert Body(e) <= body;
  }

  /** The events of `d`, up to padding or to where no whole event is left. */
  function Lex(d: seq<byte>): (es: seq<RingEvent>)
    ensures EventsWf(es)
    decreases |d|
  {
    match LexEvent(d)
    case None => []
    case Some(e) => LexPrints(d); if e.Padding? then [e] else [e] + Lex(d[|PrintEvent(e)|..])
  }

  /** Printing fixes the front of the bytes, so at most one event prints to a prefix. */
  lemma LexUnique(e: RingEvent, d: seq<byte>)
    requires EventWf(e) && PrintEvent(e) <= d
    ensures LexEvent(d) == Some(e)
  {
    hide Put32, Put64, Get32, Get64;
    var rest := d[|PrintEvent(e)|..];
    assert d == PrintEvent(e) + rest;
    assert d[..4] == Put32(HeaderWord(e));
    var body := d[4..];
    assert body == Body(e) + rest;
    if e.TimeStamp? {
      assert body[..8] == Put64(e.abs);
    } else if e.TimeExtend? {
      assert body[..4] == Put32(e.upper);
    } else if e.Long? {
      assert body[..4] == Put32(|e.data|);
      assert body[4..4 + |e.data|] == e.data;
    } else if e.Short? {
      assert body[..|e.words|] == e.words;
    }
  }

  /** No well-formed event lies at the front of these bytes. */
  ghost predicate Stuck(d: seq<byte>) {
    forall e: RingEvent :: EventWf(e) ==> !(PrintEvent(e) <= d)
  }

  lemma LexNoneIsStuck(d: seq<byte>)
    requires LexEvent(d).None?
    ensures Stuck(d)
  {
    hide LexEvent, PrintEvent;
    forall e: RingEvent | EventWf(e)
      ensures !(PrintEvent(e) <= d)
    {
      if PrintEvent(e) <= d {
        LexUnique(e, d);
      }
    }
  }

  lemma StuckStops(d: seq<byte>, ts: u64)
    requires LexEvent(d).None?
    ensures NextTurn(d, ts).Stop?
  {
  }

  /** Whatever the committed bytes are, the decoder's result is that of a printed event list which they
      start with, and which is as long as possible: it ends in padding, or nothing decodable follows. */
  lemma {:induction false} ScanLex(d: seq<byte>, ts: u64)
    ensures var es := Lex(d);
            && Scan(d, ts) == Stamp(es, ts)
            && Print(es) <= d
            && ((es != [] && es[|es| - 1].Padding?) || Stuck(d[|Print(es)|..]))
    decreases |d|
  {
    hide LexEvent, PrintEvent, NextTurn, Tick, EventWf, Stuck;
    var es := Lex(d);
    if LexEvent(d).None? {
      LexNoneIsStuck(d);
      StuckStops(d, ts);
      assert d[0..] == d;
    } else {
      var e := LexEvent(d).value;
      LexPrints(d);
      var rest := d[|PrintEvent(e)|..];
      assert d == PrintEvent(e) + rest;
      TurnOfPrinted(e, rest, ts);
      if !e.Padding? {
        ScanLex(rest, Tick(e, ts));
        assert es[1..] == Lex(rest);
        assert d[|Print(es)|..] == rest[|Print(Lex(rest))|..];
      }
    }
  }

  // ---------------------------------------------------------------- time order within a page

  predicate StampsSorted(es: seq<Stamped>) {
    forall i, j :: 0 <= i < j < |es| ==> es[i].ts <= es[j].ts
  }

  /** The clock an event would leave if it could not wrap. */
  function Clock(e: RingEvent, ts: nat): nat {
    match e
    case TimeStamp(_, abs) => abs
    case TimeExtend(delta, upper) => ts + upper * 0x800_0000 + delta
    case _ => ts + e.delta
  }

  /** Up to padding, no absolute timestamp goes back and the clock never reaches 2^64. */
  predicate Forward(es: seq<RingEvent>, ts: nat) {
    es == [] || es[0].Padding? || (ts <= Clock(es[0], ts) < U64_SIZE && Forward(es[1..], Clock(es[0], ts)))
  }

  /** Where the clock stands after the events of a page. */
  function EndClock(es: seq<RingEvent>, ts: nat): nat {
    if es == [] || es[0].Padding? then ts else EndClock(es[1..], Clock(es[0], ts))
  }

  /** On such pages the decoded events are in time order, from the starting time to the final clock. */
  lemma {:induction false} StampForward(es: seq<RingEvent>, ts: u64)
    requires Forward(es, ts)
    ensures StampsSorted(Stamp(es, ts))
    ensures ts <= EndClock(es, ts)
    ensures forall s <- Stamp(es, ts) :: ts <= s.ts <= EndClock(es, ts)
  {
    if es != [] && !es[0].Padding? {
      assert Tick(es[0], ts) == Clock(es[0], ts);
      StampForward(es[1..], Tick(es[0], ts));
    }
  }

  // ---------------------------------------------------------------- time order across pages

  function PageStart(page: seq<byte>): u64
    requires |page| == PAGE_SIZE
  {
    Get64(page[0..8])
  }

  /** The ring-buffer events committed to a page. */
  function PageLex(page: seq<byte>): (es: seq<RingEvent>)
    requires |page| == PAGE_SIZE
  {
    var commit := Get32(page[8..12]);
    if commit > 4080 then [] else Lex(page[16..16 + commit])
  }

  lemma PageIsStamped(page: seq<byte>)
    requires |page| == PAGE_SIZE
    ensures PageEvents(page) == Stamp(PageLex(page), PageStart(page))
  {
    hide Scan, Stamp, Lex, Stuck, Print;
    var commit := Get32(page[8..12]);
    if commit == 0 {
      assert page[PAGE_DATA_OFFSET..PAGE_DATA_OFFSET + commit] == [];
      assert Lex([]) == [] by { LexNil(); }
      StampNil(PageStart(page));
    } else if commit > PAGE_SIZE - PAGE_DATA_OFFSET {
      StampNil(PageStart(page));
    } else {
      ScanLex(page[PAGE_DATA_OFFSET..PAGE_DATA_OFFSET + commit], PageStart(page));
    }
  }

  lemma LexNil()
    ensures Lex([]) == []
  {
  }

  /** Every page starts no earlier than the clock left by the page before it and runs forward from there. */
  predicate PagesForward(pages: seq<seq<byte>>, clock: nat)
    requires forall p <- pages :: |p| == PAGE_SIZE
    decreases |pages|
  {
    pages == [] ||
    (var es, start := PageLex(pages[0]), PageStart(pages[0]);
     clock <= start && Forward(es, start) && PagesForward(pages[1..], EndClock(es, start)))
  }

  /** The data events of such a CPU are in time order across all of its pages. */
  lemma {:induction false} PagesInTimeOrder(pages: seq<seq<byte>>, clock: nat)
    requires (forall p <- pages :: |p| == PAGE_SIZE) && PagesForward(pages, clock)
    ensures StampsSorted(PagesEvents(pages))
    ensures forall e <- PagesEvents(pages) :: clock <= e.ts
    decreases |pages|
  {
    hide PageEvents, PageLex, PageStart, Forward, Stamp, EndClock;
    if pages != [] {
      var es, start := PageLex(pages[0]), PageStart(pages[0]);
      var first: seq<Stamped>, rest: seq<Stamped> := PageEvents(pages[0]), PagesEvents(pages[1..]);
      PageIsStamped(pages[0]);
      StampForward(es, start);
      PagesInTimeOrder(pages[1..], EndClock(es, start));
      forall i, j | 0 <= i < j < |first + rest|
        ensures (first + rest)[i].ts <= (first + rest)[j].ts
      {
        assert i < |first| ==> first[i] in first;
        assert j >= |first| ==> rest[j - |first|] in rest;
      }
    }
  }
}
