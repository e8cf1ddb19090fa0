/**
 The reader thread's own code in `tracing/nvme-trace/src/capture.rs`: `read_cpu_pipe`,
 `read_one_page` and `drain_pipe`, whose every execution is a path of the step machine.
 */
module CaptureThread {
  import opened Bytes
  import opened Records
  import opened Ftrace
  import opened PageDecode
  import opened Capture

  /** What the environment decides next: a page arrives, or how the next system call goes. */
  datatype Decision = Arrive(page: Page) | Yes | No | Interrupt | Error | Short(limit: nat)

  /** What a reader of the machine goes through. */
  datatype Event = Arrived(page: Page) | Did(flag: bool, action: Action)

  function Path(es: seq<Event>, c: Config, honest: bool): (u: Option<Cpu>)
    requires ConfigOk(c)
  {
    if es == [] then Some(Idle())
    else
      match Path(es[..|es| - 1], c, honest)
      case None => None
      case Some(u) =>
        match es[|es| - 1]
        case Arrived(page) => Some(Produced(u, page))
        case Did(flag, a) => ReaderStep(u, flag, a, c, honest)
  }

  /** Nothing was converted or written in between. */
  predicate Kept(t: Capture.Reader, t': Capture.Reader) {
    t'.bytesWritten == t.bytesWritten && t'.eventsCaptured == t.eventsCaptured && t'.buffers == t.buffers
  }

  datatype ReadOutcome = Got(n: nat) | Nothing | WasInterrupted | ReadError
  datatype PollOutcome = Ready | NotReady | PollError

  /** The system calls of one reader thread, on a finite schedule; once it is used up the stop flag is
      set and calls succeed. `cpu` follows the machine. */
  class Os {
    const c: Config
    var avail: seq<byte>
    var file: seq<byte>
    var schedule: seq<Decision>
    ghost var cpu: Cpu
    ghost var events: seq<Event>

    constructor (c: Config, schedule: seq<Decision>)
      requires ConfigOk(c)
      ensures Valid() && cpu == Idle() && this.c == c && file == []
    {
      this.c := c;
      this.schedule := schedule;
      avail, file := [], [];
      cpu, events := Idle(), [];
    }

    /** The calls so far are a path of the machine, and the real state is the machine's. */
    ghost predicate Valid()
      reads this
    {
      && ConfigOk(c)
      && Path(events, c, false) == Some(cpu)
      && cpu.pipe == avail && cpu.reader.file == file
    }

    ghost method Take(flag: bool, a: Action)
      requires ConfigOk(c) && Path(events, c, false) == Some(cpu) && ReaderStep(cpu, flag, a, c, false).Some?
      modifies this`cpu, this`events
      ensures Path(events, c, false) == Some(cpu) && ReaderStep(old(cpu), flag, a, c, false) == Some(cpu)
    {
      hide ReaderStep, ConfigOk;
      var es := events + [Did(flag, a)];
      assert es[..|es| - 1] == events;
      events := es;
      cpu := ReaderStep(cpu, flag, a, c, false).value;
    }

    /** The next decision, after any pages that arrive first. */
    method Decide(default: Decision) returns (d: Decision)
      requires Valid() && !default.Arrive?
      modifies this
      ensures Valid() && file == old(file) && cpu.reader == old(cpu.reader) && !d.Arrive?
      ensures |schedule| < |old(schedule)| || (schedule == [] && d == default && avail == old(avail))
    {
      hide ReaderStep, ConfigOk;
      while schedule != [] && schedule[0].Arrive?
        invariant Valid() && file == old(file) && cpu.reader == old(cpu.reader)
        invariant |schedule| < |old(schedule)| || (schedule == old(schedule) && avail == old(avail))
        decreases |schedule|
      {
        var page := schedule[0].page;
        schedule := schedule[1..];
        avail := avail + page;
        ghost var es := events + [Arrived(page)];
        assert es[..|es| - 1] == events;
        events := es;
        cpu := Produced(cpu, page);
      }
      if schedule == [] {
        return default;
      }
      d := schedule[0];
      schedule := schedule[1..];
    }

    method Open() returns (ok: bool)
      requires Valid() && cpu.reader.pc.Opening?
      modifies this
      ensures Valid() && file == old(file) && |schedule| <= |old(schedule)|
      ensures cpu.reader == AtPc(old(cpu.reader), if ok then LoopTop else Failed)
    {
      hide ConfigOk, Path;
      var d := Decide(Yes);
      ok := !d.Error?;
      Take(false, if ok then OpenOk else OpenFails);
    }

    /** Loads the shared stop flag. */
    method LoadStop() returns (stop: bool)
      requires Valid() && cpu.reader.pc.LoopTop?
      modifies this
      ensures Valid() && file == old(file) && |schedule| <= |old(schedule)|
      ensures !stop ==> |schedule| < |old(schedule)| && cpu.reader == AtPc(old(cpu.reader), Polling)
      ensures Kept(old(cpu.reader), cpu.reader)
      ensures stop ==> cpu.reader.pc == Filling(true, 0) && cpu.reader.page == ZeroPage()
    {
      hide ConfigOk, Path;
      var d := Decide(Yes);
      stop := d.Yes?;
      Take(stop, CheckStop);
    }

    method Poll() returns (p: PollOutcome)
      requires Valid() && cpu.reader.pc.Polling?
      modifies this
      ensures Valid() && file == old(file) && |schedule| <= |old(schedule)|
      ensures var next := match p
                          case Ready => Filling(false, 0)
                          case NotReady => LoopTop
                          case PollError => Failed;
              cpu.reader == AtPc(old(cpu.reader), next)
    {
      hide ConfigOk, Path;
      var d := Decide(Yes);
      p := if d.Yes? then Ready else if d.Error? then PollError else NotReady;
      Take(false, match p case Ready => PollReady case NotReady => PollIdle case PollError => PollFails);
    }

    /** `read` into `page[total..]`. */
    method Read(page: array<byte>, total: nat) returns (r: ReadOutcome)
      requires Valid() && cpu.reader.pc.Filling? && cpu.reader.pc.total == total < PAGE_SIZE
      requires page.Length == PAGE_SIZE && page[..] == cpu.reader.page
      modifies this, page
      ensures Valid() && file == old(file) && page[..] == cpu.reader.page && Kept(old(cpu.reader), cpu.reader)
      ensures |schedule| < |old(schedule)| || (schedule == old(schedule) == [] && |avail| <= |old(avail)|)
      ensures var d := old(cpu.reader.pc.draining);
              match r
              case Got(n) =>
                && 1 <= n && total + n <= PAGE_SIZE
                && cpu.reader.pc == (if total + n == PAGE_SIZE then Writing(d) else Filling(d, total + n))
                && (|schedule| < |old(schedule)| || |avail| < |old(avail)|)
              case Nothing => cpu.reader.pc == (if total > 0 then Writing(d) else if d then Flushing else LoopTop)
              case WasInterrupted => cpu.reader.pc == Filling(d, total) && |schedule| < |old(schedule)|
              case ReadError => cpu.reader.pc == Failed
    {
      hide ConfigOk, Path;
      var d := Decide(Yes);
      if d.Interrupt? {
        Take(false, ReadInterrupted);
        return WasInterrupted;
      }
      if d.Error? {
        Take(false, ReadFails);
        return ReadError;
      }
      var want := PAGE_SIZE - total;
      if d.Short? && d.limit + 1 < want {
        want := d.limit + 1;
      }
      var n := if |avail| < want then |avail| else want;
      if d.No? || n == 0 {
        Take(false, ReadEmpty);
        return Nothing;
      }
      Transfer(page, total, n);
      r := Got(n);
    }

    /** Moves `n` bytes of the pipe into `page[total..]`. */
    method Transfer(page: array<byte>, total: nat, n: nat)
      requires Valid() && cpu.reader.pc.Filling? && cpu.reader.pc.total == total
      requires 1 <= n <= |avail| && total + n <= PAGE_SIZE
      requires page.Length == PAGE_SIZE && page[..] == cpu.reader.page
      modifies this, page
      ensures Valid() && file == old(file) && page[..] == cpu.reader.page && Kept(old(cpu.reader), cpu.reader)
      ensures schedule == old(schedule) && avail == old(avail[n..])
      ensures var d := old(cpu.reader.pc.draining);
              cpu.reader.pc == (if total + n == PAGE_SIZE then Writing(d) else Filling(d, total + n))
    {
      hide ConfigOk, Path;
      ghost var was := page[..];
      Take(false, ReadBytes(n));
      forall i | 0 <= i < n {
        page[total + i] := avail[i];
      }
      assert page[..] == was[..total] + avail[..n] + was[total + n..];
      avail := avail[n..];
    }

    /** `write_all` of the records of the page buffer; a failing one may leave part of them. */
    method WriteAll(records: seq<byte>) returns (ok: bool)
      requires Valid() && cpu.reader.pc.Writing? && records == PageBytes(cpu.reader.page, c)
      modifies this
      ensures Valid() && |schedule| <= |old(schedule)|
      ensures |schedule| < |old(schedule)| || avail == old(avail)
      ensures ok ==>
        var t := old(cpu.reader);
        && file == old(file) + records
        && cpu.reader == Reader(if t.pc.draining then Filling(true, 0) else LoopTop, t.page, file,
                                t.bytesWritten + |records|, t.eventsCaptured + PageCount(t.page, c),
                                t.buffers + [t.page])
      ensures !ok ==> cpu.reader.pc.Failed?
    {
      hide ConfigOk, PageBytes, PageCount, Path;
      var d := Decide(Yes);
      if d.Error? || d.Short? {
        var k := if d.Error? then 0 else if d.limit < |records| then d.limit else |records|;
        Take(false, WriteFails(k));
        file := file + records[..k];
        return false;
      }
      file := file + records;
      Take(false, WriteOk);
      ok := true;
    }

    method Flush() returns (ok: bool)
      requires Valid() && cpu.reader.pc.Flushing?
      modifies this
      ensures Valid() && file == old(file)
      ensures cpu.reader == AtPc(old(cpu.reader), if ok then Finished else Failed)
    {
      hide ConfigOk, Path;
      var d := Decide(Yes);
      ok := !d.Error?;
      Take(false, if ok then FlushOk else FlushFails);
    }
  }

  // ---------------------------------------------------------------- the thread

  datatype PageResult = Page(events: nat, bytes: nat) | NoPage | PageError

  /** Fills the page buffer across reads, then converts it into `records`. */
  method ReadOnePage(os: Os, page: array<byte>, records: Vec) returns (r: PageResult)
    requires os.Valid() && os.cpu.reader.pc.Filling? && os.cpu.reader.pc.total == 0
    requires page.Length == PAGE_SIZE && page[..] == os.cpu.reader.page
    modifies os, page, records
    ensures os.Valid() && os.file == old(os.file)
    ensures page[..] == os.cpu.reader.page && Kept(old(os.cpu.reader), os.cpu.reader)
    ensures |os.schedule| <= |old(os.schedule)|
    ensures |os.schedule| < |old(os.schedule)| || |os.avail| <= |old(os.avail)|
    ensures r.Page? ==>
      && os.cpu.reader.pc == Writing(old(os.cpu.reader.pc.draining))
      && records.bytes == PageBytes(os.cpu.reader.page, os.c)
      && r.bytes == |records.bytes| && r.events == PageCount(os.cpu.reader.page, os.c)
      && (|os.schedule| < |old(os.schedule)| || |os.avail| < |old(os.avail)|)
    ensures r.NoPage? ==> os.cpu.reader.pc == (if old(os.cpu.reader.pc.draining) then Flushing else LoopTop)
    ensures r.PageError? ==> os.cpu.reader.pc.Failed?
    ensures !r.Page? ==> records.bytes == old(records.bytes)
  {
    hide ConfigOk, PageEvents, Emitted, Flat, Path;
    ghost var draining := os.cpu.reader.pc.draining;
    var totalRead := 0;
    while totalRead < PAGE_SIZE
      invariant os.Valid() && os.file == old(os.file) && totalRead <= PAGE_SIZE
      invariant Kept(old(os.cpu.reader), os.cpu.reader)
      invariant page[..] == os.cpu.reader.page && records.bytes == old(records.bytes)
      invariant os.cpu.reader.pc == if totalRead < PAGE_SIZE then Filling(draining, totalRead) else Writing(draining)
      invariant |os.schedule| <= |old(os.schedule)|
      invariant |os.schedule| < |old(os.schedule)| || |os.avail| <= |old(os.avail)|
      invariant totalRead > 0 ==> |os.schedule| < |old(os.schedule)| || |os.avail| < |old(os.avail)|
      decreases |os.schedule|, PAGE_SIZE - totalRead
    {
      var got := os.Read(page, totalRead);
      match got {
        case Nothing =>
          if totalRead == 0 {
            return NoPage;
          }
          break;
        case Got(n) => totalRead := totalRead + n;
        case WasInterrupted =>
        case ReadError => return PageError;
      }
    }
    records.Clear();
    var n := ParsePageEvents(page, os.c, records);
    r := Page(n, |records.bytes|);
  }

  /** After the stop signal: reads and writes out pages until a read finds nothing. */
  method DrainPipe(os: Os, records: Vec, bytesWritten: nat, eventsCaptured: nat)
      returns (ok: bool, bytesWritten': nat, eventsCaptured': nat)
    requires os.Valid() && os.cpu.reader.pc == Filling(true, 0) && os.cpu.reader.page == ZeroPage()
    requires os.cpu.reader.bytesWritten == bytesWritten && os.cpu.reader.eventsCaptured == eventsCaptured
    modifies os, records
    ensures os.Valid()
    ensures ok ==> os.cpu.reader.pc.Flushing?
    ensures !ok ==> os.cpu.reader.pc.Failed?
    ensures ok ==> os.cpu.reader.bytesWritten == bytesWritten' && os.cpu.reader.eventsCaptured == eventsCaptured'
  {
    hide ConfigOk, PageEvents, Emitted, Flat, Path, PageBytes, PageCount, ReaderStep, ZeroPage;
    var page := new byte[PAGE_SIZE](_ => 0);
    assert page[..] == ZeroPage() by { ZeroPageIs(page[..]); }
    bytesWritten', eventsCaptured' := bytesWritten, eventsCaptured;
    while true
      invariant os.Valid() && os.cpu.reader.pc == Filling(true, 0) && page[..] == os.cpu.reader.page
      invariant os.cpu.reader.bytesWritten == bytesWritten' && os.cpu.reader.eventsCaptured == eventsCaptured'
      decreases |os.schedule|, |os.avail|
    {
      var r := ReadOnePage(os, page, records);
      match r {
        case NoPage => return true, bytesWritten', eventsCaptured';
        case PageError => return false, bytesWritten', eventsCaptured';
        case Page(n, b) =>
          var written := os.WriteAll(records.bytes);
          if !written {
            return false, bytesWritten', eventsCaptured';
          }
          bytesWritten' := bytesWritten' + b;
          eventsCaptured' := eventsCaptured' + n;
      }
    }
  }

  lemma ZeroPageIs(p: seq<byte>)
    requires |p| == PAGE_SIZE && forall i :: 0 <= i < PAGE_SIZE ==> p[i] == 0
    ensures p == ZeroPage()
  {
  }

  datatype Stats = Stats(bytesWritten: nat, eventsCaptured: nat)

  /**
   The whole thread. Whatever the environment does, its calls are a path of the machine that ends in
   `Finished` when it returns its counters and in `Failed` when it returns an error, and the file and
   the counters are the machine's.
   */
  method ReadCpuPipe(os: Os) returns (r: Option<Stats>)
    requires os.Valid() && os.cpu == Idle() && os.file == []
    modifies os
    ensures os.Valid()
    ensures r.Some? ==> os.cpu.reader.pc.Finished?
    ensures r.None? ==> os.cpu.reader.pc.Failed?
    ensures r.Some? ==> r.value == Stats(os.cpu.reader.bytesWritten, os.cpu.reader.eventsCaptured)
    ensures FileOk(os.cpu.reader, os.c)
    ensures r.Some? ==>
      && os.file == PagesBytes(os.cpu.reader.buffers, os.c)
      && r.value == Stats(|os.file|, PagesCount(os.cpu.reader.buffers, os.c))
  {
    hide ConfigOk, PageEvents, Emitted, Flat, Path, PageBytes, PageCount, ReaderStep, ZeroPage, PagesBytes, PagesCount,
      FileOk;
    r := RunThread(os);
    PathFileOk(os.events, os.c);
    if r.Some? {
      FileOkMeans(os.cpu.reader, os.c);
    }
  }

  lemma FileOkMeans(t: Capture.Reader, c: Config)
    requires ConfigOk(c) && FileOk(t, c) && t.pc.Finished?
    ensures t.file == PagesBytes(t.buffers, c) && t.bytesWritten == |t.file|
    ensures t.eventsCaptured == PagesCount(t.buffers, c)
  {
    hide ConfigOk, PagesBytes, PagesCount;
  }

  /** Every path of the machine keeps the file and the counters right. */
  lemma {:induction false} PathFileOk(es: seq<Event>, c: Config)
    requires ConfigOk(c) && Path(es, c, false).Some?
    ensures FileOk(Path(es, c, false).value.reader, c)
  {
    hide ConfigOk, FileOk, ReaderStep;
    if es == [] {
      IdleFileOk(c);
    } else {
      var before := es[..|es| - 1];
      PathFileOk(before, c);
      var e := es[|es| - 1];
      if e.Did? {
        ReaderKeepsFile(Path(before, c, false).value, e.flag, e.action, c, false);
      }
    }
  }

  method RunThread(os: Os) returns (r: Option<Stats>)
    requires os.Valid() && os.cpu == Idle() && os.file == []
    modifies os
    ensures os.Valid()
    ensures r.Some? ==> os.cpu.reader.pc.Finished?
    ensures r.None? ==> os.cpu.reader.pc.Failed?
    ensures r.Some? ==> r.value == Stats(os.cpu.reader.bytesWritten, os.cpu.reader.eventsCaptured)
  {
    hide ConfigOk, PageEvents, Emitted, Flat, Path, PageBytes, PageCount, ReaderStep, ZeroPage;
    var open := os.Open();
    if !open {
      return None;
    }
    var page := new byte[PAGE_SIZE](_ => 0);
    assert page[..] == ZeroPage() by { ZeroPageIs(page[..]); }
    var records := new Vec();
    var bytesWritten, eventsCaptured := 0, 0;
    while true
      invariant os.Valid() && os.cpu.reader.pc == LoopTop && page[..] == os.cpu.reader.page
      invariant os.cpu.reader.bytesWritten == bytesWritten && os.cpu.reader.eventsCaptured == eventsCaptured
      decreases |os.schedule|
    {
      var stop := os.LoadStop();
      if stop {
        var drained;
        drained, bytesWritten, eventsCaptured := DrainPipe(os, records, bytesWritten, eventsCaptured);
        if !drained {
          return None;
        }
        break;
      }
      var polled := os.Poll();
      match polled {
        case NotReady =>
        case PollError => return None;
        case Ready =>
          var next := ReadOnePage(os, page, records);
          match next {
            case NoPage =>
            case PageError => return None;
            case Page(n, b) =>
              var written := os.WriteAll(records.bytes);
              if !written {
                return None;
              }
              bytesWritten := bytesWritten + b;
              eventsCaptured := eventsCaptured + n;
          }
      }
    }
    var flushed := os.Flush();
    r := if flushed then Some(Stats(bytesWritten, eventsCaptured)) else None;
  }

  // ---------------------------------------------------------------- threads make up the run

  predicate FlagSet(steps: seq<Step>) {
    SetFlag in steps
  }

  /** What CPU `i` goes through in a run: its pages, and its actions with the stop flag as it is then. */
  function Trail(steps: seq<Step>, i: nat): (es: seq<Event>) {
    if steps == [] then []
    else
      var before := steps[..|steps| - 1];
      match steps[|steps| - 1]
      case Produce(j, page) => Trail(before, i) + if i == j then [Arrived(page)] else []
      case Act(j, a) => Trail(before, i) + if i == j then [Did(FlagSet(before), a)] else []
      case _ => Trail(before, i)
  }

  /** The main thread alone. */
  function MainNext(m: Main, step: Step): (r: Option<Main>) {
    match step
    case Start(ok) => if m.Setup? then Some(if ok then Running else Ended(false)) else None
    case Stop(ok) => if m.Running? then Some(Stopped(ok)) else None
    case SetFlag => if m.Stopped? then Some(Joining(m.stopOk)) else None
    case Join(overruns) => if m.Joining? then Some(Ended(m.stopOk && overruns == Some(0))) else None
    case Produce(_, _) => if MayProduce(m) then Some(m) else None
    case Act(_, _) => if m.Ended? then None else Some(m)
  }

  function MainPath(steps: seq<Step>): (r: Option<Main>) {
    if steps == [] then Some(Setup)
    else
      match MainPath(steps[..|steps| - 1])
      case None => None
      case Some(m) => MainNext(m, steps[|steps| - 1])
  }

  predicate InRange(step: Step, n: nat) {
    match step
    case Produce(i, _) => i < n
    case Act(i, _) => i < n
    case _ => true
  }

  ghost predicate ReadersDone(n: nat, steps: seq<Step>, c: Config, honest: bool)
    requires ConfigOk(c) && forall i: nat :: i < n ==> Path(Trail(steps, i), c, honest).Some?
  {
    forall i: nat :: i < n ==> Over(Path(Trail(steps, i), c, honest).value)
  }

  /** The threads fit together: each CPU's events are a path, the main thread's steps are possible, and it
      joins only readers that are done. */
  ghost predicate Fits(n: nat, steps: seq<Step>, c: Config, honest: bool)
    requires ConfigOk(c)
  {
    && MainPath(steps).Some?
    && (forall step <- steps :: InRange(step, n))
    && (forall i: nat :: i < n ==> Path(Trail(steps, i), c, honest).Some?)
    && ((exists step <- steps :: step.Join?) ==> ReadersDone(n, steps, c, honest))
  }

  /** The state of the run, put together from the threads. */
  ghost predicate Agrees(s: Sys, n: nat, steps: seq<Step>, c: Config, honest: bool)
    requires ConfigOk(c) && Fits(n, steps, c, honest)
  {
    && |s.cpus| == n && s.stopFlag == FlagSet(steps)
    && (forall i: nat :: i < n ==> Path(Trail(steps, i), c, honest) == Some(s.cpus[i]))
    && s.main == (var m := MainPath(steps).value; if m == Ended(true) && !AllFinished(s) then Ended(false) else m)
  }

  lemma TrailSnoc(before: seq<Step>, step: Step, i: nat)
    ensures Trail(before + [step], i) == Trail(before, i) + (
              match step
              case Produce(j, page) => if i == j then [Arrived(page)] else []
              case Act(j, a) => if i == j then [Did(FlagSet(before), a)] else []
              case _ => [])
  {
    assert (before + [step])[..|before|] == before;
  }

  lemma PathSnoc(es: seq<Event>, e: Event, c: Config, honest: bool)
    requires ConfigOk(c)
    ensures Path(es + [e], c, honest).Some? ==> Path(es, c, honest).Some?
    ensures Path(es, c, honest).Some? ==>
              Path(es + [e], c, honest) == match e
                                   case Arrived(page) => Some(Produced(Path(es, c, honest).value, page))
                                   case Did(flag, a) => ReaderStep(Path(es, c, honest).value, flag, a, c, honest)
  {
    hide ReaderStep, ConfigOk;
    assert (es + [e])[..|es|] == es;
  }

  /** What a step of the run does to CPU `i`. */
  function CpuNext(u: Cpu, i: nat, step: Step, flag: bool, c: Config, honest: bool): (r: Option<Cpu>)
    requires ConfigOk(c)
  {
    match step
    case Produce(j, page) => Some(if i == j then Produced(u, page) else u)
    case Act(j, a) => if i == j then ReaderStep(u, flag, a, c, honest) else Some(u)
    case _ => Some(u)
  }

  /** The path of CPU `i` over one more step of the run. */
  lemma TrailPath(before: seq<Step>, step: Step, i: nat, c: Config, honest: bool)
    requires ConfigOk(c)
    ensures Path(Trail(before + [step], i), c, honest).Some? ==> Path(Trail(before, i), c, honest).Some?
    ensures Path(Trail(before, i), c, honest).Some? ==>
              var u := Path(Trail(before, i), c, honest).value;
              Path(Trail(before + [step], i), c, honest) == CpuNext(u, i, step, FlagSet(before), c, honest)
  {
    hide ReaderStep, ConfigOk, Path, Trail, FlagSet;
    TrailSnoc(before, step, i);
    match step {
      case Produce(j, page) => PathSnoc(Trail(before, i), Arrived(page), c, honest);
      case Act(j, a) => PathSnoc(Trail(before, i), Did(FlagSet(before), a), c, honest);
      case _ =>
    }
    assert Trail(before, i) + [] == Trail(before, i);
  }

  lemma MainSnoc(before: seq<Step>, step: Step)
    ensures MainPath(before + [step]) ==
            if MainPath(before).None? then None else MainNext(MainPath(before).value, step)
  {
    assert (before + [step])[..|before|] == before;
  }

  /** After a join the main thread is done. */
  lemma {:induction false} JoinEnds(steps: seq<Step>)
    requires MainPath(steps).Some? && exists step <- steps :: step.Join?
    ensures MainPath(steps).value.Ended?
  {
    var before, step := steps[..|steps| - 1], steps[|steps| - 1];
    assert steps == before + [step];
    if !step.Join? {
      JoinEnds(before);
    }
  }

  lemma FitsPrefix(n: nat, before: seq<Step>, step: Step, c: Config, honest: bool)
    requires ConfigOk(c) && Fits(n, before + [step], c, honest)
    ensures Fits(n, before, c, honest)
  {
    hide ReaderStep, ConfigOk, Path, Trail, MainPath;
    var steps := before + [step];
    MainSnoc(before, step);
    forall i: nat | i < n
      ensures Path(Trail(before, i), c, honest).Some?
    {
      TrailPath(before, step, i, c, honest);
    }
    forall x <- before
      ensures InRange(x, n)
    {
      assert x in steps;
    }
    if exists x <- before :: x.Join? {
      JoinEnds(before);
    }
  }

  lemma FitsAtFirst(n: nat, c: Config, honest: bool)
    requires ConfigOk(c)
    ensures Fits(n, [], c, honest) && Agrees(Init(n), n, [], c, honest)
  {
  }

  /** Whether every reader is done, seen from the threads and from the state. */
  lemma DoneAgrees(n: nat, before: seq<Step>, s: Sys, c: Config, honest: bool)
    requires ConfigOk(c) && Fits(n, before, c, honest) && Agrees(s, n, before, c, honest)
    ensures AllDone(s) <==> ReadersDone(n, before, c, honest)
  {
    hide ConfigOk, Path, Trail, MainPath, Over;
    assert forall i: nat :: i < n ==> Path(Trail(before, i), c, honest) == Some(s.cpus[i]);
    assert AllDone(s) <==> forall i: nat :: i < n ==> Over(s.cpus[i]) by {
      if forall i: nat :: i < n ==> Over(s.cpus[i]) {
        forall u <- s.cpus
          ensures Over(u)
        {
          var i: nat :| i < n && s.cpus[i] == u;
        }
      }
    }
  }

  /** One more step: possible in the machine exactly when it is possible for its thread. */
  lemma FitsNext(n: nat, before: seq<Step>, step: Step, s: Sys, c: Config, honest: bool)
    requires ConfigOk(c) && Fits(n, before, c, honest) && Agrees(s, n, before, c, honest)
    ensures Next(s, step, c, honest).Some? <==> Fits(n, before + [step], c, honest)
    ensures Fits(n, before + [step], c, honest) ==>
              Agrees(Next(s, step, c, honest).value, n, before + [step], c, honest)
  {
    hide ReaderStep, ConfigOk, Path, Trail, MainPath, AllDone, Over;
    var steps := before + [step];
    MainSnoc(before, step);
    DoneAgrees(n, before, s, c, honest);
    forall i: nat | i < n
      ensures Path(Trail(before, i), c, honest) == Some(s.cpus[i])
      ensures Path(Trail(steps, i), c, honest) == CpuNext(s.cpus[i], i, step, s.stopFlag, c, honest)
    {
      TrailPath(before, step, i, c, honest);
    }
    assert step in steps && forall x <- before :: x in steps;
    if exists x <- before :: x.Join? {
      JoinEnds(before);
    } else {
      assert (exists x <- steps :: x.Join?) <==> step.Join?;
      if Next(s, step, c, honest).Some? {
        assert MainPath(steps).Some?;
        assert forall x <- steps :: InRange(x, n);
        assert forall i: nat :: i < n ==> Path(Trail(steps, i), c, honest).Some?;
        assert step.Join? ==> ReadersDone(n, steps, c, honest);
      }
      if Fits(n, steps, c, honest) {
        assert InRange(step, n);
        assert MainNext(MainPath(before).value, step).Some?;
        assert step.Join? ==> AllDone(s);
        assert Next(s, step, c, honest).Some?;
      }
    }
  }

  /**
   The executions of the threads are the runs of the machine. A list of steps is a run exactly when the
   events of each CPU are a path of its reader under the flag values of that list and the main thread can
   take its steps; the state it reaches is then the one its threads reach.
   */
  lemma {:induction false} RunIsPaths(n: nat, steps: seq<Step>, c: Config, honest: bool)
    requires ConfigOk(c)
    ensures Run(n, steps, c, honest).Some? <==> Fits(n, steps, c, honest)
    ensures Fits(n, steps, c, honest) ==> Agrees(Run(n, steps, c, honest).value, n, steps, c, honest)
  {
    hide ConfigOk, ReaderStep, Fits, Agrees, Next;
    if steps == [] {
      FitsAtFirst(n, c, honest);
    } else {
      var before, step := steps[..|steps| - 1], steps[|steps| - 1];
      assert steps == before + [step];
      RunIsPaths(n, before, c, honest);
      if Fits(n, steps, c, honest) {
        FitsPrefix(n, before, step, c, honest);
      }
      if Fits(n, before, c, honest) {
        FitsNext(n, before, step, Run(n, before, c, honest).value, c, honest);
      }
    }
  }

  // ---------------------------------------------------------------- exactly when one thread loses nothing

  /** The thread has seen the stop flag. */
  predicate Seen(es: seq<Event>) {
    exists e <- es :: e.Did? && e.flag
  }

  /** No page appears once the thread has seen the stop flag. */
  predicate Quiet(es: seq<Event>) {
    forall j, k :: 0 <= j < k < |es| && es[j].Did? && es[j].flag ==> es[k].Did?
  }

  predicate Draining(pc: ReaderPc) {
    pc.Flushing? || pc.Finished? || (pc.Filling? && pc.draining) || (pc.Writing? && pc.draining)
  }

  lemma DrainingSeen(u: Cpu, flag: bool, a: Action, c: Config, honest: bool)
    requires ConfigOk(c) && ReaderStep(u, flag, a, c, honest).Some?
    ensures Draining(ReaderStep(u, flag, a, c, honest).value.reader.pc) ==> Draining(u.reader.pc) || flag
  {
    hide ConfigOk, PageBytes, PageCount;
  }

  /** The system one thread sees when a successful stop is under way. */
  function Stopping(): Sys {
    Sys([], Joining(true), true)
  }

  lemma {:induction false} PathKeeps(es: seq<Event>, c: Config)
    requires ConfigOk(c) && Path(es, c, true).Some? && Quiet(es)
    ensures var u := Path(es, c, true).value;
            NothingLost(u) && DrainedOk(u, Stopping()) && (Draining(u.reader.pc) ==> Seen(es))
  {
    hide ConfigOk, ReaderStep, NothingLost;
    if es == [] {
      InitHonest(1);
      assert Idle() in Init(1).cpus by { assert Init(1).cpus[0] == Idle(); }
    } else {
      var before, e := es[..|es| - 1], es[|es| - 1];
      assert es == before + [e];
      PathKeeps(before, c);
      var u := Path(before, c, true).value;
      match e {
        case Did(flag, a) =>
          ReaderKeeps(u, flag, a, Stopping(), c);
          DrainingSeen(u, flag, a, c, true);
        case Arrived(page) => ProduceKeeps(u, page, Stopping());
      }
    }
  }

  lemma {:induction false} PathHurts(es: seq<Event>, c: Config)
    requires ConfigOk(c) && Path(es, c, false).Some?
    ensures var u := Path(es, c, false).value;
            && Enough(u)
            && (Path(es, c, true) == Some(u) || (Path(es, c, true).None? && Hurt(u)))
  {
    hide ConfigOk, ReaderStep, Enough, Hurt;
    if es == [] {
      IdleEnough();
    } else {
      var before, e := es[..|es| - 1], es[|es| - 1];
      PathHurts(before, c);
      var u := Path(before, c, false).value;
      match e {
        case Did(flag, a) => StepHurts(u, flag, a, c);
        case Arrived(page) => ProducedHurts(u, page);
      }
    }
  }

  /**
   One thread on its own. A reader that returned normally, with no page appearing after it saw the stop flag,
   converted exactly the pages of its CPU, in order, if and only if none of its reads was lossy.
   */
  lemma ThreadCompleteExactly(es: seq<Event>, c: Config)
    requires ConfigOk(c) && Path(es, c, false).Some? && Path(es, c, false).value.reader.pc.Finished? && Quiet(es)
    ensures var u := Path(es, c, false).value;
            Path(es, c, true).Some? <==> u.reader.buffers == u.produced && u.pipe == []
  {
    hide ConfigOk, Path, NothingLost, Quiet;
    PathHurts(es, c);
    if Path(es, c, true).Some? {
      PathKeeps(es, c);
    }
  }

  /** Unless the stop failed, no page appears after a thread saw the stop flag. */
  lemma {:induction false} RunQuiet(n: nat, steps: seq<Step>, i: nat, c: Config)
    requires ConfigOk(c) && Run(n, steps, c, false).Some?
    ensures var s := Run(n, steps, c, false).value;
            && (s.stopFlag ==> s.main.Joining? || s.main.Ended?)
            && (Seen(Trail(steps, i)) ==> s.stopFlag)
            && (s.main in {Stopped(false), Joining(false), Ended(false)} || Quiet(Trail(steps, i)))
  {
    hide ConfigOk, ReaderStep;
    if steps != [] {
      var before, step := steps[..|steps| - 1], steps[|steps| - 1];
      assert steps == before + [step];
      RunQuiet(n, before, i, c);
      TrailSnoc(before, step, i);
      RunIsPaths(n, before, c, false);
    }
  }

  /** In a successful capture, the file of a CPU is complete exactly when none of the reads of its own thread
      was lossy, whatever the other threads did. */
  lemma EachCpuExactly(n: nat, steps: seq<Step>, i: nat, c: Config)
    requires ConfigOk(c) && Run(n, steps, c, false).Some? && Run(n, steps, c, false).value.main == Ended(true)
    requires i < n
    ensures |Run(n, steps, c, false).value.cpus| == n
    ensures var u := Run(n, steps, c, false).value.cpus[i];
            && (Path(Trail(steps, i), c, true).Some? <==> u.reader.buffers == u.produced && u.pipe == [])
            && (Path(Trail(steps, i), c, true).Some? ==> u.reader.file == PagesBytes(u.produced, c))
  {
    hide ConfigOk, Path, Run, Quiet, Trail, MainPath, Fails, PagesBytes, PagesCount;
    FilesAlwaysOk(n, steps, c, false);
    RunIsPaths(n, steps, c, false);
    RunQuiet(n, steps, i, c);
    SuccessExactly(n, steps, c, false);
    var s := Run(n, steps, c, false).value;
    assert s.cpus[i] in s.cpus;
    ThreadCompleteExactly(Trail(steps, i), c);
  }
}
