/**
 A capture run of `tracing/nvme-trace/src/capture.rs` as a step machine: page producers,
 one reader thread per CPU, and the main thread, in any interleaving.
 */
module Capture {
  import opened Bytes
  import opened Records
  import opened Ftrace
  import opened PageDecode

  type Page = p: seq<byte> | |p| == PAGE_SIZE witness seq(PAGE_SIZE, _ => 0)

  function ZeroPage(): Page {
    seq(PAGE_SIZE, _ => 0)
  }

  function PageBytes(page: Page, c: Config): seq<byte>
    requires ConfigOk(c)
  {
    Flat(Emitted(PageEvents(page), c))
  }

  function PageCount(page: Page, c: Config): nat
    requires ConfigOk(c)
  {
    |Emitted(PageEvents(page), c)|
  }

  function PagesCount(pages: seq<Page>, c: Config): nat
    requires ConfigOk(c)
  {
    if pages == [] then 0 else PageCount(pages[0], c) + PagesCount(pages[1..], c)
  }

  // ---------------------------------------------------------------- state

  /** Where a reader thread is: before opening its files, at the top of its loop, in `poll`, in
      `read_one_page` with `total` bytes read, about to write the records of a page, about to flush, or done. */
  datatype ReaderPc =
    | Opening
    | LoopTop
    | Polling
    | Filling(draining: bool, total: nat)
    | Writing(draining: bool)
    | Flushing
    | Finished
    | Failed

  /** `buffers` lists the page buffers converted so far. */
  datatype Reader = Reader(pc: ReaderPc, page: Page, file: seq<byte>, bytesWritten: nat, eventsCaptured: nat,
                           buffers: seq<Page>)

  /** One CPU: the pages its ring buffer produced, the bytes of them not yet read, and its reader. */
  datatype Cpu = Cpu(produced: seq<Page>, pipe: seq<byte>, reader: Reader)

  datatype Main =
    | Setup
    | Running
    | Stopped(stopOk: bool)
    | Joining(stopOk: bool)
    | Ended(ok: bool)

  datatype Sys = Sys(cpus: seq<Cpu>, main: Main, stopFlag: bool)

  /** What happens to a reader in one step. */
  datatype Action =
    | OpenOk
    | OpenFails
    | CheckStop
    | PollIdle
    | PollReady
    | PollFails
    | ReadBytes(n: nat)
    | ReadEmpty
    | ReadInterrupted
    | ReadFails
    | WriteOk
    | WriteFails(written: nat)
    | FlushOk
    | FlushFails

  datatype Step =
    | Start(ok: bool)
    | Stop(ok: bool)
    | SetFlag
    | Join(overruns: Option<nat>)
    | Produce(cpu: nat, page: Page)
    | Act(cpu: nat, action: Action)

  // ---------------------------------------------------------------- steps

  function With(u: Cpu, t: Reader): Cpu {
    Cpu(u.produced, u.pipe, t)
  }

  function AtPc(t: Reader, pc: ReaderPc): Reader {
    Reader(pc, t.page, t.file, t.bytesWritten, t.eventsCaptured, t.buffers)
  }

  function GoTo(u: Cpu, pc: ReaderPc): Cpu {
    With(u, AtPc(u.reader, pc))
  }

  /** The page buffer after `n` more bytes of the pipe. */
  function Overlay(page: Page, total: nat, more: seq<byte>): Page
    requires total + |more| <= PAGE_SIZE
  {
    page[..total] + more + page[total + |more|..]
  }

  /** A step inside `read_one_page`; with `honest`, no read is lossy: one comes back empty only at the start
      of a page, and while draining only when the pipe is empty. */
  function FillStep(u: Cpu, draining: bool, total: nat, a: Action, honest: bool): (r: Option<Cpu>)
  {
    var t := u.reader;
    match a
    case ReadBytes(n) =>
      if !(1 <= n <= |u.pipe| && total + n <= PAGE_SIZE) then None
      else
        var pc := if total + n == PAGE_SIZE then Writing(draining) else Filling(draining, total + n);
        var page := Overlay(t.page, total, u.pipe[..n]);
        Some(Cpu(u.produced, u.pipe[n..], Reader(pc, page, t.file, t.bytesWritten, t.eventsCaptured, t.buffers)))
    case ReadEmpty =>
      if honest && (total > 0 || (draining && u.pipe != [])) then None
      else if total > 0 then Some(GoTo(u, Writing(draining)))
      else Some(GoTo(u, if draining then Flushing else LoopTop))
    case ReadInterrupted => Some(u)
    case ReadFails => Some(GoTo(u, Failed))
    case _ => None
  }

  /** Writing out the records of the page buffer. */
  function WriteStep(u: Cpu, draining: bool, a: Action, c: Config): (r: Option<Cpu>)
    requires ConfigOk(c)
  {
    var t := u.reader;
    var more := PageBytes(t.page, c);
    match a
    case WriteOk =>
      Some(With(u, Reader(if draining then Filling(true, 0) else LoopTop, t.page, t.file + more,
                          t.bytesWritten + |more|, t.eventsCaptured + PageCount(t.page, c), t.buffers + [t.page])))
    case WriteFails(k) =>
      if k > |more| then None
      else Some(With(u, Reader(Failed, t.page, t.file + more[..k], t.bytesWritten, t.eventsCaptured, t.buffers)))
    case _ => None
  }

  /** One step of a reader; nothing if the step is not possible there. */
  function ReaderStep(u: Cpu, stopFlag: bool, a: Action, c: Config, honest: bool): (r: Option<Cpu>)
    requires ConfigOk(c)
  {
    var t := u.reader;
    match t.pc
    case Opening =>
      if a.OpenOk? then Some(GoTo(u, LoopTop)) else if a.OpenFails? then Some(GoTo(u, Failed)) else None
    case LoopTop =>
      if !a.CheckStop? then None
      else if !stopFlag then Some(GoTo(u, Polling))
      else Some(With(u, Reader(Filling(true, 0), ZeroPage(), t.file, t.bytesWritten, t.eventsCaptured, t.buffers)))
    case Polling =>
      if a.PollIdle? then Some(GoTo(u, LoopTop))
      else if a.PollReady? then Some(GoTo(u, Filling(false, 0)))
      else if a.PollFails? then Some(GoTo(u, Failed))
      else None
    case Filling(draining, total) => FillStep(u, draining, total, a, honest)
    case Writing(draining) => WriteStep(u, draining, a, c)
    case Flushing =>
      if a.FlushOk? then Some(GoTo(u, Finished)) else if a.FlushFails? then Some(GoTo(u, Failed)) else None
    case _ => None
  }

  predicate Over(u: Cpu) {
    u.reader.pc.Finished? || u.reader.pc.Failed?
  }

  predicate AllDone(s: Sys) {
    forall u <- s.cpus :: Over(u)
  }

  predicate AllFinished(s: Sys) {
    forall u <- s.cpus :: u.reader.pc.Finished?
  }

  /** The result of `capture`: the stop error first, then reader errors, then the overrun count. */
  function Verdict(stopOk: bool, s: Sys, overruns: Option<nat>): bool {
    stopOk && AllFinished(s) && overruns == Some(0)
  }

  /** Pages can appear until a stop that succeeded. */
  predicate MayProduce(m: Main) {
    match m
    case Stopped(ok) => !ok
    case Joining(ok) => !ok
    case Ended(_) => false
    case _ => true
  }

  function Next(s: Sys, step: Step, c: Config, honest: bool): (r: Option<Sys>)
    requires ConfigOk(c)
  {
    match step
    case Start(ok) =>
      if !s.main.Setup? then None else Some(Sys(s.cpus, if ok then Running else Ended(false), s.stopFlag))
    case Stop(ok) =>
      if !s.main.Running? then None else Some(Sys(s.cpus, Stopped(ok), s.stopFlag))
    case SetFlag =>
      if !s.main.Stopped? then None else Some(Sys(s.cpus, Joining(s.main.stopOk), true))
    case Join(overruns) =>
      if !(s.main.Joining? && AllDone(s)) then None
      else Some(Sys(s.cpus, Ended(Verdict(s.main.stopOk, s, overruns)), s.stopFlag))
    case Produce(i, page) =>
      if i >= |s.cpus| || !MayProduce(s.main) then None
      else Some(Sys(s.cpus[i := Produced(s.cpus[i], page)], s.main, s.stopFlag))
    case Act(i, a) =>
      if i >= |s.cpus| || s.main.Ended? then None
      else
        var u := ReaderStep(s.cpus[i], s.stopFlag, a, c, honest);
        if u.None? then None else Some(Sys(s.cpus[i := u.value], s.main, s.stopFlag))
  }

  function Produced(u: Cpu, page: Page): Cpu {
    Cpu(u.produced + [page], u.pipe + page, u.reader)
  }

  function Idle(): Cpu {
    Cpu([], [], Reader(Opening, ZeroPage(), [], 0, 0, []))
  }

  function Init(n: nat): Sys {
    Sys(seq(n, _ => Idle()), Setup, false)
  }

  /** The state after a list of steps, if each was possible. */
  function Run(n: nat, steps: seq<Step>, c: Config, honest: bool): (r: Option<Sys>)
    requires ConfigOk(c)
  {
    if steps == [] then Some(Init(n))
    else
      match Run(n, steps[..|steps| - 1], c, honest)
      case None => None
      case Some(s) => Next(s, steps[|steps| - 1], c, honest)
  }

  // ---------------------------------------------------------------- what every run keeps

  /** The file is the conversion of the buffers so far, and the counters agree; a failed write may
      have left part of one more page. */
  ghost predicate FileOk(t: Reader, c: Config)
    requires ConfigOk(c)
  {
    var all := PagesBytes(t.buffers, c);
    && t.bytesWritten == |all| && t.eventsCaptured == PagesCount(t.buffers, c)
    && all <= t.file
    && (!t.pc.Failed? ==> t.file == all)
    && (t.pc.Filling? ==> t.pc.total < PAGE_SIZE)
  }

  lemma {:induction false} PagesBytesSnoc(pages: seq<Page>, page: Page, c: Config)
    requires ConfigOk(c)
    ensures PagesBytes(pages + [page], c) == PagesBytes(pages, c) + PageBytes(page, c)
    ensures PagesCount(pages + [page], c) == PagesCount(pages, c) + PageCount(page, c)
  {
    hide Emitted, Flat, PageEvents, ConfigOk;
    if pages == [] {
      assert (pages + [page])[1..] == [];
    } else {
      assert (pages + [page])[1..] == pages[1..] + [page];
      PagesBytesSnoc(pages[1..], page, c);
    }
  }

  lemma ReaderKeepsFile(u: Cpu, stopFlag: bool, a: Action, c: Config, honest: bool)
    requires ConfigOk(c) && FileOk(u.reader, c) && ReaderStep(u, stopFlag, a, c, honest).Some?
    ensures FileOk(ReaderStep(u, stopFlag, a, c, honest).value.reader, c)
  {
    hide ConfigOk, PagesBytes, PagesCount, PageBytes, PageCount;
    if a.WriteOk? {
      PagesBytesSnoc(u.reader.buffers, u.reader.page, c);
    }
  }

  /** In every interleaving, with any environment, each output file is at every step the
      concatenation of the conversions of the page buffers its reader has processed. */
  lemma {:induction false} FilesAlwaysOk(n: nat, steps: seq<Step>, c: Config, honest: bool)
    requires ConfigOk(c) && Run(n, steps, c, honest).Some?
    ensures forall u <- Run(n, steps, c, honest).value.cpus :: FileOk(u.reader, c)
    ensures |Run(n, steps, c, honest).value.cpus| == n
  {
    hide ConfigOk, FileOk, ReaderStep;
    if steps == [] {
      assert FileOk(Idle().reader, c) by { IdleFileOk(c); }
    } else {
      var before := steps[..|steps| - 1];
      FilesAlwaysOk(n, before, c, honest);
      var s := Run(n, before, c, honest).value;
      var step := steps[|steps| - 1];
      if step.Act? {
        ReaderKeepsFile(s.cpus[step.cpu], s.stopFlag, step.action, c, honest);
      }
    }
  }

  lemma IdleFileOk(c: Config)
    requires ConfigOk(c)
    ensures FileOk(Idle().reader, c)
  {
  }

  // ---------------------------------------------------------------- without lossy reads nothing is lost

  function Joined(pages: seq<Page>): (b: seq<byte>)
    ensures |b| == PAGE_SIZE * |pages|
  {
    if pages == [] then [] else pages[0] + Joined(pages[1..])
  }

  lemma {:induction false} JoinedConcat(a: seq<Page>, b: seq<Page>)
    ensures Joined(a + b) == Joined(a) + Joined(b)
  {
    if a == [] {
      assert a + b == b;
    } else {
      assert (a + b)[1..] == a[1..] + b;
      JoinedConcat(a[1..], b);
    }
  }

  /** The bytes read of the page being assembled. */
  function InHand(t: Reader): seq<byte>
    requires t.pc.Filling? ==> t.pc.total <= PAGE_SIZE
    ensures t.pc.Filling? ==> |InHand(t)| == t.pc.total
  {
    match t.pc
    case Filling(_, total) => t.page[..total]
    case Writing(_) => t.page
    case _ => []
  }

  /** The buffers processed are the first pages produced; what is in hand and in the pipe are the rest. */
  ghost predicate NothingLost(u: Cpu) {
    var t := u.reader;
    && (t.pc.Filling? ==> t.pc.total < PAGE_SIZE)
    && (!t.pc.Failed? ==> t.buffers <= u.produced && InHand(t) + u.pipe == Joined(u.produced[|t.buffers|..]))
  }

  /** Draining starts only once the flag is set, and a finished reader of a run whose stop succeeded
      has processed everything. */
  ghost predicate DrainedOk(u: Cpu, s: Sys) {
    var pc := u.reader.pc;
    && (pc.Flushing? || pc.Finished? || (pc.Filling? && pc.draining) || (pc.Writing? && pc.draining) ==> s.stopFlag)
    && ((pc.Flushing? || pc.Finished?) && StopSucceeded(s.main) ==> u.reader.buffers == u.produced && u.pipe == [])
  }

  predicate StopSucceeded(m: Main) {
    match m
    case Stopped(ok) => ok
    case Joining(ok) => ok
    case Ended(ok) => ok
    case _ => false
  }

  ghost predicate HonestOk(s: Sys) {
    && (s.stopFlag ==> s.main.Joining? || s.main.Ended?)
    && (s.main == Ended(true) ==> AllFinished(s))
    && forall u <- s.cpus :: NothingLost(u) && DrainedOk(u, s)
  }

  lemma FillKeeps(u: Cpu, draining: bool, total: nat, a: Action, s: Sys)
    requires NothingLost(u) && DrainedOk(u, s) && u.reader.pc == Filling(draining, total)
    requires FillStep(u, draining, total, a, true).Some?
    ensures var v := FillStep(u, draining, total, a, true).value; NothingLost(v) && DrainedOk(v, s)
  {
    hide Joined;
    var t := u.reader;
    if a.ReadBytes? {
      assert u.pipe == u.pipe[..a.n] + u.pipe[a.n..];
      assert Overlay(t.page, total, u.pipe[..a.n])[..total + a.n] == t.page[..total] + u.pipe[..a.n];
    } else if a.ReadEmpty? && draining {
      NothingLeft(u, total);
    }
  }

  /** An empty pipe means that no page is started and none is left. */
  lemma NothingLeft(u: Cpu, total: nat)
    requires NothingLost(u) && u.reader.pc.Filling? && u.reader.pc.total == total && u.pipe == []
    ensures total == 0 && u.reader.buffers == u.produced
  {
    var t := u.reader;
    var rest := u.produced[|t.buffers|..];
    assert InHand(t) + u.pipe == InHand(t) == Joined(rest);
    assert rest == [];
    assert u.produced == t.buffers + rest;
  }

  lemma WriteKeeps(u: Cpu, draining: bool, a: Action, s: Sys, c: Config)
    requires ConfigOk(c) && NothingLost(u) && DrainedOk(u, s) && u.reader.pc == Writing(draining)
    requires WriteStep(u, draining, a, c).Some?
    ensures var v := WriteStep(u, draining, a, c).value; NothingLost(v) && DrainedOk(v, s)
  {
    hide ConfigOk, PageBytes, PageCount;
    var t := u.reader;
    var rest := u.produced[|t.buffers|..];
    assert rest != [] by {
      assert |Joined(rest)| >= PAGE_SIZE;
    }
    assert Joined(rest) == rest[0] + Joined(rest[1..]);
    assert t.page == Joined(rest)[..PAGE_SIZE] == rest[0];
    assert u.pipe == Joined(rest)[PAGE_SIZE..];
    assert rest[1..] == u.produced[|t.buffers| + 1..];
    assert (t.buffers + [t.page]) == u.produced[..|t.buffers| + 1];
  }

  /** A reader whose stop flag is up only when the system's is loses nothing in a step without a lossy read. */
  lemma ReaderKeeps(u: Cpu, flag: bool, a: Action, s: Sys, c: Config)
    requires ConfigOk(c) && NothingLost(u) && DrainedOk(u, s) && (flag ==> s.stopFlag)
    requires ReaderStep(u, flag, a, c, true).Some?
    ensures var v := ReaderStep(u, flag, a, c, true).value; NothingLost(v) && DrainedOk(v, s)
  {
    hide ConfigOk, FillStep, WriteStep;
    match u.reader.pc {
      case Filling(d, total) => FillKeeps(u, d, total, a, s);
      case Writing(d) => WriteKeeps(u, d, a, s, c);
      case _ =>
    }
  }

  lemma ProduceKeeps(u: Cpu, page: Page, s: Sys)
    requires NothingLost(u) && DrainedOk(u, s)
    requires MayProduce(s.main) || !(u.reader.pc.Flushing? || u.reader.pc.Finished?)
    ensures NothingLost(Produced(u, page)) && DrainedOk(Produced(u, page), s)
  {
    var v := Produced(u, page);
    var k := |u.reader.buffers|;
    if !u.reader.pc.Failed? {
      assert v.produced[k..] == u.produced[k..] + [page];
      JoinedConcat(u.produced[k..], [page]);
      assert Joined([page]) == page + Joined([]);
    }
  }

  lemma NextHonest(s: Sys, step: Step, c: Config)
    requires ConfigOk(c) && HonestOk(s) && Next(s, step, c, true).Some?
    ensures HonestOk(Next(s, step, c, true).value)
  {
    hide ConfigOk, NothingLost, ReaderStep;
    var s' := Next(s, step, c, true).value;
    forall u <- s'.cpus
      ensures NothingLost(u) && DrainedOk(u, s')
    {
      var i :| 0 <= i < |s'.cpus| && s'.cpus[i] == u;
      assert s.cpus[i] in s.cpus;
      match step {
        case Act(j, a) => if i == j { ReaderKeeps(s.cpus[i], s.stopFlag, a, s, c); }
        case Produce(j, page) => if i == j { ProduceKeeps(s.cpus[i], page, s); }
        case _ =>
      }
    }
  }

  lemma {:induction false} RunHonest(n: nat, steps: seq<Step>, c: Config)
    requires ConfigOk(c) && Run(n, steps, c, true).Some?
    ensures HonestOk(Run(n, steps, c, true).value)
  {
    hide ConfigOk, Next, HonestOk;
    if steps == [] {
      assert HonestOk(Init(n)) by { InitHonest(n); }
    } else {
      RunHonest(n, steps[..|steps| - 1], c);
      NextHonest(Run(n, steps[..|steps| - 1], c, true).value, steps[|steps| - 1], c);
    }
  }

  lemma InitHonest(n: nat)
    ensures HonestOk(Init(n))
  {
    assert Idle().produced[0..] == [];
  }

  /**
   A successful capture without a lossy empty read: every page every CPU produced was converted exactly
   once, in order; each output file is exactly the conversion of all of them, and the counters count it.
   */
  lemma CaptureComplete(n: nat, steps: seq<Step>, c: Config)
    requires ConfigOk(c) && Run(n, steps, c, true).Some? && Run(n, steps, c, true).value.main == Ended(true)
    ensures forall u <- Run(n, steps, c, true).value.cpus ::
              && u.reader.pc.Finished?
              && u.reader.buffers == u.produced && u.pipe == []
              && u.reader.file == PagesBytes(u.produced, c)
              && u.reader.bytesWritten == |u.reader.file|
              && u.reader.eventsCaptured == PagesCount(u.produced, c)
  {
    hide ConfigOk, Run, Next, NothingLost, PagesBytes, PagesCount;
    RunHonest(n, steps, c);
    FilesAlwaysOk(n, steps, c, true);
  }

  // ---------------------------------------------------------------- exactly when a capture succeeds

  /** A step that reports an error. */
  predicate Fails(step: Step) {
    match step
    case Start(ok) => !ok
    case Stop(ok) => !ok
    case Join(overruns) => overruns != Some(0)
    case Act(_, a) => a.OpenFails? || a.PollFails? || a.ReadFails? || a.WriteFails? || a.FlushFails?
    case _ => false
  }

  /** The errors so far are remembered, by the main thread or by a reader that gave up. */
  predicate ErrorSeen(s: Sys) {
    || s.main in {Stopped(false), Joining(false), Ended(false)}
    || exists u <- s.cpus :: u.reader.pc.Failed?
  }

  lemma {:induction false} ErrorsRemembered(n: nat, steps: seq<Step>, c: Config, honest: bool)
    requires ConfigOk(c) && Run(n, steps, c, honest).Some?
    ensures ErrorSeen(Run(n, steps, c, honest).value) <==> exists step <- steps :: Fails(step)
    ensures Run(n, steps, c, honest).value.main == Ended(true) ==> AllFinished(Run(n, steps, c, honest).value)
  {
    hide ConfigOk, ErrorSeen, Fails, Next;
    if steps == [] {
      assert !ErrorSeen(Init(n)) by { InitClean(n); }
    } else {
      var before, step := steps[..|steps| - 1], steps[|steps| - 1];
      ErrorsRemembered(n, before, c, honest);
      NextRemembers(Run(n, before, c, honest).value, step, c, honest);
      assert steps == before + [step];
    }
  }

  lemma InitClean(n: nat)
    ensures !ErrorSeen(Init(n))
  {
  }

  lemma NextRemembers(s: Sys, step: Step, c: Config, honest: bool)
    requires ConfigOk(c) && Next(s, step, c, honest).Some?
    requires s.main == Ended(true) ==> AllFinished(s)
    ensures var s' := Next(s, step, c, honest).value;
            && (ErrorSeen(s') <==> ErrorSeen(s) || Fails(step))
            && (s'.main == Ended(true) ==> AllFinished(s'))
  {
    hide ConfigOk, ReaderStep;
    var s' := Next(s, step, c, honest).value;
    match step {
      case Act(j, a) =>
        assert s.cpus[j] in s.cpus && s'.cpus[j] in s'.cpus;
        FailedBy(s.cpus[j], s.stopFlag, a, c, honest);
        FailedAt(s.cpus, j, s'.cpus[j]);
      case Produce(j, page) =>
        FailedAt(s.cpus, j, s'.cpus[j]);
      case _ =>
    }
  }

  /** A reader is in `Failed` exactly after an error. */
  lemma FailedBy(u: Cpu, stopFlag: bool, a: Action, c: Config, honest: bool)
    requires ConfigOk(c) && ReaderStep(u, stopFlag, a, c, honest).Some?
    ensures !u.reader.pc.Failed?
    ensures ReaderStep(u, stopFlag, a, c, honest).value.reader.pc.Failed? <==> Fails(Act(0, a))
  {
    hide ConfigOk, PageBytes, PageCount;
  }

  lemma FailedAt(cpus: seq<Cpu>, j: nat, v: Cpu)
    requires j < |cpus| && (cpus[j].reader.pc.Failed? ==> v.reader.pc.Failed?)
    ensures (exists u <- cpus[j := v] :: u.reader.pc.Failed?)
            <==> (exists u <- cpus :: u.reader.pc.Failed?) || v.reader.pc.Failed?
  {
    var after := cpus[j := v];
    assert after[j] == v && v in after;
    if u :| u in cpus && u.reader.pc.Failed? {
      var i :| 0 <= i < |cpus| && cpus[i] == u;
      assert after[i] in after && after[i].reader.pc.Failed?;
    }
    if u :| u in after && u.reader.pc.Failed? {
      var i :| 0 <= i < |after| && after[i] == u;
      assert i != j ==> cpus[i] in cpus;
    }
  }

  /** `capture` reports success exactly when no call failed, on any thread, and no event was overrun. */
  lemma SuccessExactly(n: nat, steps: seq<Step>, c: Config, honest: bool)
    requires ConfigOk(c) && Run(n, steps, c, honest).Some? && Run(n, steps, c, honest).value.main.Ended?
    ensures Run(n, steps, c, honest).value.main.ok <==> forall step <- steps :: !Fails(step)
    ensures Run(n, steps, c, honest).value.main.ok ==> AllFinished(Run(n, steps, c, honest).value)
  {
    hide ConfigOk, Run, Fails;
    ErrorsRemembered(n, steps, c, honest);
    var s := Run(n, steps, c, honest).value;
    assert s.main == Ended(true) || s.main == Ended(false);
  }

  // ---------------------------------------------------------------- exactly when nothing is lost

  /** The bytes a reader holds of the page it is on; a page that is about to be written counts in full. */
  function Held(t: Reader): nat {
    match t.pc
    case Filling(_, total) => total
    case Writing(_) => PAGE_SIZE
    case _ => 0
  }

  /** The bytes waiting, held and converted. */
  function Accounted(u: Cpu): nat {
    |u.pipe| + Held(u.reader) + PAGE_SIZE * |u.reader.buffers|
  }

  /** With any environment, no byte produced goes missing from the account. */
  predicate Enough(u: Cpu) {
    && (u.reader.pc.Filling? ==> u.reader.pc.total < PAGE_SIZE)
    && (!u.reader.pc.Failed? ==> PAGE_SIZE * |u.produced| <= Accounted(u))
  }

  /** A reader that cannot end well any more: it failed, it passed off a partial page as a whole one, or it
      stopped reading while pages were waiting. */
  predicate Hurt(u: Cpu) {
    var pc := u.reader.pc;
    || pc.Failed?
    || PAGE_SIZE * |u.produced| < Accounted(u)
    || ((pc.Flushing? || pc.Finished?) && u.pipe != [])
  }

  /** A lossy empty read hurts its reader, and nothing heals it. */
  lemma StepHurts(u: Cpu, stopFlag: bool, a: Action, c: Config)
    requires ConfigOk(c) && Enough(u) && ReaderStep(u, stopFlag, a, c, false).Some?
    ensures var v := ReaderStep(u, stopFlag, a, c, false).value;
            && Enough(v)
            && (Hurt(u) ==> Hurt(v))
            && var w := ReaderStep(u, stopFlag, a, c, true);
            w == Some(v) || (w.None? && Hurt(v))
  {
    hide ConfigOk, PageBytes, PageCount;
  }

  lemma {:induction false} RunHurts(n: nat, steps: seq<Step>, c: Config)
    requires ConfigOk(c) && Run(n, steps, c, false).Some?
    ensures forall u <- Run(n, steps, c, false).value.cpus :: Enough(u)
    ensures Run(n, steps, c, true) == Run(n, steps, c, false)
            || (Run(n, steps, c, true).None? && exists u <- Run(n, steps, c, false).value.cpus :: Hurt(u))
  {
    hide ConfigOk, ReaderStep, Enough, Hurt;
    if steps == [] {
      assert Enough(Idle()) by { IdleEnough(); }
    } else {
      var before, step := steps[..|steps| - 1], steps[|steps| - 1];
      RunHurts(n, before, c);
      var s := Run(n, before, c, false).value;
      NextHurts(s, step, c);
    }
  }

  lemma IdleEnough()
    ensures Enough(Idle())
  {
  }

  lemma NextHurts(s: Sys, step: Step, c: Config)
    requires ConfigOk(c) && Next(s, step, c, false).Some? && forall u <- s.cpus :: Enough(u)
    ensures var s' := Next(s, step, c, false).value;
            && (forall u <- s'.cpus :: Enough(u))
            && ((exists u <- s.cpus :: Hurt(u)) ==> exists u <- s'.cpus :: Hurt(u))
            && (Next(s, step, c, true) == Some(s') || (Next(s, step, c, true).None? && exists u <- s'.cpus :: Hurt(u)))
  {
    hide ConfigOk, ReaderStep, Enough, Hurt;
    var s' := Next(s, step, c, false).value;
    match step {
      case Act(j, a) =>
        assert s.cpus[j] in s.cpus && s'.cpus[j] in s'.cpus;
        StepHurts(s.cpus[j], s.stopFlag, a, c);
      case Produce(j, page) =>
        assert s.cpus[j] in s.cpus && s'.cpus[j] in s'.cpus;
        ProducedHurts(s.cpus[j], page);
      case _ =>
    }
    if u :| u in s.cpus && Hurt(u) {
      var i :| 0 <= i < |s.cpus| && s.cpus[i] == u;
      assert s'.cpus[i] in s'.cpus && Hurt(s'.cpus[i]);
    }
  }

  lemma ProducedHurts(u: Cpu, page: Page)
    requires Enough(u)
    ensures Enough(Produced(u, page)) && (Hurt(u) ==> Hurt(Produced(u, page)))
  {
  }

  /**
   Exactly when a successful capture is complete. Every page was converted, once and in order, and the pipes
   are empty, if and only if no read came back empty in the middle of a page or, while draining, with pages
   still waiting. An empty read at the start of a page while polling does no harm.
   */
  lemma CompleteExactly(n: nat, steps: seq<Step>, c: Config)
    requires ConfigOk(c) && Run(n, steps, c, false).Some? && Run(n, steps, c, false).value.main == Ended(true)
    ensures Run(n, steps, c, true).Some?
            <==> forall u <- Run(n, steps, c, false).value.cpus :: u.reader.buffers == u.produced && u.pipe == []
    ensures Run(n, steps, c, true).Some? ==> Run(n, steps, c, true) == Run(n, steps, c, false)
  {
    hide ConfigOk, Run, PagesBytes, PagesCount, HonestOk;
    RunHurts(n, steps, c);
    if Run(n, steps, c, true).Some? {
      CaptureComplete(n, steps, c);
    } else {
      var s := Run(n, steps, c, false).value;
      SuccessExactly(n, steps, c, false);
      var u :| u in s.cpus && Hurt(u);
      assert u.reader.pc.Finished?;
    }
  }

  // ---------------------------------------------------------------- runs that lose data and succeed

  /** One more step of a run of one CPU. */
  lemma Then(steps: seq<Step>, s: Sys, step: Step, c: Config) returns (steps': seq<Step>, s': Sys)
    requires ConfigOk(c) && Run(1, steps, c, false) == Some(s) && Next(s, step, c, false).Some?
    ensures steps' == steps + [step] && Run(1, steps', c, false) == Some(s') && Next(s, step, c, false) == Some(s')
  {
    hide Next, ConfigOk;
    steps', s' := steps + [step], Next(s, step, c, false).value;
    assert steps'[..|steps'| - 1] == steps;
  }

  lemma ThenAct(steps: seq<Step>, s: Sys, a: Action, c: Config) returns (steps': seq<Step>, s': Sys)
    requires ConfigOk(c) && Run(1, steps, c, false) == Some(s) && |s.cpus| == 1 && !s.main.Ended?
    requires ReaderStep(s.cpus[0], s.stopFlag, a, c, false).Some?
    ensures Run(1, steps', c, false) == Some(s')
    ensures s' == Sys([ReaderStep(s.cpus[0], s.stopFlag, a, c, false).value], s.main, s.stopFlag)
  {
    hide Run, ReaderStep, ConfigOk;
    steps', s' := Then(steps, s, Act(0, a), c);
  }

  /** Tracing starts, the pages appear and the reader opens its files. */
  lemma Started(pages: seq<Page>, c: Config) returns (steps: seq<Step>, s: Sys)
    requires ConfigOk(c) && |pages| <= 2
    ensures Run(1, steps, c, false) == Some(s)
    ensures s == Sys([Cpu(pages, Joined(pages), Reader(LoopTop, ZeroPage(), [], 0, 0, []))], Running, false)
  {
    hide Run, ConfigOk;
    steps, s := [], Init(1);
    assert Run(1, [], c, false) == Some(Init(1)) by { InitRun(c); }
    steps, s := Then(steps, s, Start(true), c);
    steps, s := ThenAct(steps, s, OpenOk, c);
    if |pages| > 0 {
      steps, s := Then(steps, s, Produce(0, pages[0]), c);
      assert s.cpus[0].produced == pages[..1] && s.cpus[0].pipe == Joined(pages[..1]);
    }
    if |pages| > 1 {
      steps, s := Then(steps, s, Produce(0, pages[1]), c);
    }
    assert s.cpus[0].produced == pages && s.cpus[0].pipe == Joined(pages);
  }

  lemma InitRun(c: Config)
    requires ConfigOk(c)
    ensures Run(1, [], c, false) == Some(Init(1))
  {
  }

  /** The reader, at `read_one_page`, gets `k` bytes and, if they do not fill the page, an empty read. */
  lemma PageRead(steps: seq<Step>, s: Sys, k: nat, c: Config) returns (steps': seq<Step>, s': Sys)
    requires ConfigOk(c) && Run(1, steps, c, false) == Some(s) && |s.cpus| == 1 && !s.main.Ended?
    requires s.cpus[0].reader.pc.Filling? && s.cpus[0].reader.pc.total == 0
    requires 1 <= k <= PAGE_SIZE && k <= |s.cpus[0].pipe|
    ensures Run(1, steps', c, false) == Some(s') && s'.main == s.main && s'.stopFlag == s.stopFlag && |s'.cpus| == 1
    ensures var u, v := s.cpus[0], s'.cpus[0];
            var page := u.pipe[..k] + u.reader.page[k..];
            && v.produced == u.produced && v.pipe == u.pipe[k..] && v.reader.page == page
            && v.reader.buffers == u.reader.buffers + [page]
            && v.reader.pc == if u.reader.pc.draining then Filling(true, 0) else LoopTop
  {
    hide Run, ConfigOk, PageBytes, PageCount;
    steps', s' := ThenAct(steps, s, ReadBytes(k), c);
    if k < PAGE_SIZE {
      steps', s' := ThenAct(steps', s', ReadEmpty, c);
    }
    steps', s' := ThenAct(steps', s', WriteOk, c);
  }

  /** The stop succeeds and the reader starts draining. */
  lemma DrainBegins(steps: seq<Step>, s: Sys, c: Config) returns (steps': seq<Step>, s': Sys)
    requires ConfigOk(c) && Run(1, steps, c, false) == Some(s) && |s.cpus| == 1
    requires s.main == Running && s.cpus[0].reader.pc == LoopTop
    ensures Run(1, steps', c, false) == Some(s') && s'.main == Joining(true) && s'.stopFlag && |s'.cpus| == 1
    ensures var t := s.cpus[0].reader;
            var drain := Reader(Filling(true, 0), ZeroPage(), t.file, t.bytesWritten, t.eventsCaptured, t.buffers);
            s'.cpus[0] == With(s.cpus[0], drain)
  {
    hide Run, ConfigOk;
    steps', s' := Then(steps, s, Step.Stop(true), c);
    steps', s' := Then(steps', s', SetFlag, c);
    steps', s' := ThenAct(steps', s', CheckStop, c);
  }

  /** An empty read ends the drain, and the run succeeds. */
  lemma DrainEnds(steps: seq<Step>, s: Sys, c: Config) returns (steps': seq<Step>, s': Sys)
    requires ConfigOk(c) && Run(1, steps, c, false) == Some(s) && |s.cpus| == 1
    requires s.main == Joining(true) && s.cpus[0].reader.pc == Filling(true, 0)
    ensures Run(1, steps', c, false) == Some(s') && s'.main == Ended(true)
    ensures s'.cpus == [GoTo(s.cpus[0], Finished)]
  {
    hide Run, ConfigOk;
    steps', s' := ThenAct(steps, s, ReadEmpty, c);
    steps', s' := ThenAct(steps', s', FlushOk, c);
    steps', s' := Then(steps', s', Join(Some(0)), c);
  }

  /** One empty read while a page waits in the pipe ends the drain: the page is lost and the run succeeds. */
  lemma SpuriousEmptyReadLoses(page: Page, c: Config) returns (steps: seq<Step>)
    requires ConfigOk(c)
    ensures Run(1, steps, c, false).Some?
    ensures var s := Run(1, steps, c, false).value;
            s.main == Ended(true) && |s.cpus| == 1 && s.cpus[0].produced == [page] && s.cpus[0].reader.file == []
  {
    hide Run, ConfigOk;
    var s;
    steps, s := Started([page], c);
    steps, s := DrainBegins(steps, s, c);
    steps, s := DrainEnds(steps, s, c);
  }

  /**
   An empty read after `k` bytes of the second page, at any `k` inside it: the run succeeds, but the reader
   converted three page buffers for the two pages. The second holds the new bytes followed by what the buffer
   held before, which is the rest of the first page; the third holds the rest of the second page and zeros.
   */
  lemma PartialPageMixes(a: Page, b: Page, k: nat, c: Config) returns (steps: seq<Step>)
    requires ConfigOk(c) && 1 <= k < PAGE_SIZE
    ensures Run(1, steps, c, false).Some?
    ensures var s := Run(1, steps, c, false).value;
            && s.main == Ended(true) && |s.cpus| == 1 && s.cpus[0].produced == [a, b]
            && var buffers := s.cpus[0].reader.buffers;
            && |buffers| == 3 && buffers[0] == a && buffers[1] == b[..k] + a[k..]
            && buffers[2][..PAGE_SIZE - k] == b[k..]
            && forall j :: PAGE_SIZE - k <= j < PAGE_SIZE ==> buffers[2][j] == 0
  {
    hide Run, ConfigOk, ReaderStep, Next;
    var s;
    steps, s := Started([a, b], c);
    assert s.cpus[0].pipe == a + b;
    steps, s := PollThenRead(steps, s, PAGE_SIZE, c);
    assert s.cpus[0].pipe == b && s.cpus[0].reader.page == a && s.cpus[0].reader.buffers == [a];
    steps, s := PollThenRead(steps, s, k, c);
    assert s.cpus[0].pipe == b[k..];
    steps, s := DrainBegins(steps, s, c);
    steps, s := PageRead(steps, s, PAGE_SIZE - k, c);
    assert b[k..][..PAGE_SIZE - k] == b[k..];
    steps, s := DrainEnds(steps, s, c);
  }

  lemma PollThenRead(steps: seq<Step>, s: Sys, k: nat, c: Config) returns (steps': seq<Step>, s': Sys)
    requires ConfigOk(c) && Run(1, steps, c, false) == Some(s) && |s.cpus| == 1 && !s.main.Ended? && !s.stopFlag
    requires s.cpus[0].reader.pc == LoopTop && 1 <= k <= PAGE_SIZE && k <= |s.cpus[0].pipe|
    ensures Run(1, steps', c, false) == Some(s') && s'.main == s.main && s'.stopFlag == s.stopFlag && |s'.cpus| == 1
    ensures var u, v := s.cpus[0], s'.cpus[0];
            var page := u.pipe[..k] + u.reader.page[k..];
            && v.produced == u.produced && v.pipe == u.pipe[k..] && v.reader.page == page
            && v.reader.buffers == u.reader.buffers + [page] && v.reader.pc == LoopTop
  {
    hide Run, ConfigOk;
    steps', s' := ThenAct(steps, s, CheckStop, c);
    steps', s' := ThenAct(steps', s', PollReady, c);
    steps', s' := PageRead(steps', s', k, c);
  }
}
