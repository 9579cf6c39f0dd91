/** The log reader itself: LogFileReader (bfe_log_reader/log_reader.go) and PbLogReader
    (bfe_log_reader/pb_log_reader.go), with the fields and methods of the source. Each method is
    tied to the reader machine: the ghost `events` records the system calls made so far, and
    `Valid` says that the fields are exactly what the machine computes from them. So everything
    proved of every run of the machine holds of this code. */
module PbLogReader {
  import opened Sequences
  import opened Framing
  import opened FileSystem
  import opened Kernel
  import opened PbParse
  import M = ReaderMachine
  import Rotation
  import FanOut

  /** The outcome of a call is what the kernel answered in that turn. */
  predicate Answered(e: M.Event, t: Turn) {
    match e
    case StatPath(masked) => masked == t.fault
    case OpenPath(fault) => fault == t.fault
    case SeekAndStat(fault) => fault == t.fault
    case Read(fault, amount) => fault == t.fault && amount == t.amount
    case StatForCut(fault) => fault == t.fault
    case ReadAll(fault) => fault == t.fault
    case _ => false
  }

  /** The reader between two events: its state, the next turn of the kernel, and whether a system
      call is under way. */
  datatype Moment = Moment(state: M.State, tick: nat, calling: bool)

  /** One event leads from one moment to the next: the machine takes the step that is due. A call
      begins with the changes the kernel has in store for its turn and ends with the outcome. */
  ghost predicate Happens(schedule: nat -> Turn, a: Moment, e: M.Event, b: Moment) {
    && M.Due(a.state, e) && b.state == M.Step(a.state, e)
    && match e
       case Env(changes) => !a.calling && b.calling && b.tick == a.tick + 1 && changes == schedule(a.tick).changes
       case Finish => !a.calling && !b.calling && b.tick == a.tick
       case call => a.calling && !b.calling && b.tick == a.tick > 0 && Answered(call, schedule(a.tick - 1))
  }

  ghost predicate IsHistory(schedule: nat -> Turn, moments: seq<Moment>, events: seq<M.Event>) {
    && |moments| == |events| + 1
    && forall k {:trigger events[k]} :: 0 <= k < |events| ==> Happens(schedule, moments[k], events[k], moments[k + 1])
  }

  lemma {:induction false} HistoryIsRun(schedule: nat -> Turn, moments: seq<Moment>, events: seq<M.Event>)
    requires IsHistory(schedule, moments, events)
    ensures moments[|events|].state == M.Run(moments[0].state, events)
    decreases |events|
  {
    if events != [] {
      var n := |events| - 1;
      forall k | 0 <= k < n
        ensures Happens(schedule, moments[..n + 1][k], events[..n][k], moments[..n + 1][k + 1])
      {
        assert events[..n][k] == events[k];
      }
      HistoryIsRun(schedule, moments[..n + 1], events[..n]);
      assert Happens(schedule, moments[n], events[n], moments[n + 1]);
    }
  }

  lemma HistorySnoc(schedule: nat -> Turn, moments: seq<Moment>, events: seq<M.Event>, e: M.Event, b: Moment)
    requires IsHistory(schedule, moments, events)
    requires Happens(schedule, moments[|moments| - 1], e, b)
    ensures IsHistory(schedule, moments + [b], events + [e])
  {
    var ms, es := moments + [b], events + [e];
    forall k | 0 <= k < |es|
      ensures Happens(schedule, ms[k], es[k], ms[k + 1])
    {
      if k < |events| {
        assert es[k] == events[k];
      }
    }
  }

  /** At the end of a history without failing reads everything that was opened has been delivered. */
  lemma HistoryIsDelivery(framer: Framer, fs: FileSystem, fromBegin: bool, schedule: nat -> Turn,
                          moments: seq<Moment>, events: seq<M.Event>, s: M.State)
    requires framer.Lawful() && fs.Valid() && Rotation.ReadsSucceed(events)
    requires IsHistory(schedule, moments, events)
    requires moments[0].state == M.Init(framer, fs, fromBegin) && moments[|events|].state == s
    requires s.phase == M.Idle && s.fd.Some?
    ensures M.Spans(s) != []
    ensures s.frames == Rotation.Delivery(framer, s.fs, Rotation.Inodes(M.Spans(s)), M.Spans(s)[0].start,
                                          s.fd.value.offset)
  {
    HistoryIsRun(schedule, moments, events);
    Rotation.RotationLosesAndRepeatsNothing(framer, fs, fromBegin, events);
  }

  /** A successful read was made between two points of the history. */
  ghost predicate ReadBetween(before: seq<M.Event>, after: seq<M.Event>) {
    exists k :: |before| <= k < |after| && after[k].Read? && !after[k].fault
  }

  lemma ReadSince(before: seq<M.Event>, mid: seq<M.Event>, amount: nat, after: seq<M.Event>)
    requires before <= mid && mid + [M.Read(false, amount)] <= after
    ensures ReadBetween(before, after)
  {
    assert after[|mid|] == M.Read(false, amount);
  }

  lemma ReadBetweenWiden(before: seq<M.Event>, mid: seq<M.Event>, end: seq<M.Event>, after: seq<M.Event>)
    requires ReadBetween(mid, end) && before <= mid && end <= after
    ensures ReadBetween(before, after)
  {
    var k :| |mid| <= k < |end| && end[k].Read? && !end[k].fault;
    assert after[k] == end[k];
  }

  // ---------------------------------------------------------------- what a call is to achieve

  /** The log after the changes made to it up to turn k. */
  function LogIn(schedule: nat -> Turn, fs: FileSystem, k: nat): FileSystem {
    ApplyAll(fs, schedule(k).changes)
  }

  /** The file that is opened if open comes in turn k and seek in the next: the one the path names. */
  function OpensIn(schedule: nat -> Turn, fs: FileSystem, k: nat): Option<nat> {
    var log := LogIn(schedule, fs, k);
    if log.named && log.files != [] && !schedule(k).fault && !schedule(k + 1).fault then Some(|log.files| - 1) else None
  }

  /** The file that a call opens which begins in turn k without one: stat comes first, and only an
      answer that there is no log keeps the reader from opening it. */
  function OpensFrom(schedule: nat -> Turn, fs: FileSystem, k: nat): Option<nat> {
    var log := LogIn(schedule, fs, k);
    if log.named || schedule(k).fault then OpensIn(schedule, log, k + 1) else None
  }

  /** The file that is open after a call that begins in turn k with `fd`: the same one, unless its
      end has been reached and the path names another file; then that is opened, if it can be. */
  function NextFile(schedule: nat -> Turn, fs: FileSystem, k: nat, fd: M.Fd): Option<nat> {
    var a := LogIn(schedule, fs, k);
    var b := LogIn(schedule, a, k + 1);
    if schedule(k).fault then None
    else if fd.offset < |M.Content(a, fd.inode)| then Some(fd.inode)
    else if schedule(k + 1).fault || !b.named || |b.files| == fd.inode + 1 then Some(fd.inode)
    else OpensIn(schedule, LogIn(schedule, b, k + 2), k + 3)
  }

  class PbLogReader<R> {
    const framer: Framer
    const decode: Bytes -> Option<R>
    const kernel: Kernel
    const isReadFromBegin: bool
    const maxSizePerBatch: int

    var logFd: Option<M.Fd>
    var fileInfo: Option<nat>
    var initDone: bool
    var dataBuffer: Bytes
    var sumPbRecord: nat
    var errPbDecode: nat

    ghost const fs0: FileSystem
    ghost const tick0: nat
    ghost var events: seq<M.Event>
    ghost var moments: seq<Moment>
    ghost var calling: bool
    ghost var phase: M.Phase
    ghost var start: nat
    ghost var closed: seq<M.Span>
    ghost var frames: seq<Bytes>

    ghost function View(): M.State
      reads this, kernel
    {
      M.State(framer, isReadFromBegin, kernel.fs, logFd, start, fileInfo, initDone, dataBuffer,
              phase, closed, frames)
    }

    /** The recorded events are the ones that were due, with the outcomes the kernel gave them. */
    ghost predicate Honest()
      reads this`events, this`moments, this`calling, kernel
    {
      && framer.Lawful() && fs0.Valid()
      && IsHistory(kernel.schedule, moments, events)
      && moments[0] == Moment(M.Init(framer, fs0, isReadFromBegin), tick0, false)
      && moments[|moments| - 1].tick == kernel.tick && moments[|moments| - 1].calling == calling
    }

    /** The state of the machine after the events recorded so far. */
    ghost function Recorded(): M.State
      requires moments != []
      reads this`moments
    {
      moments[|moments| - 1].state
    }

    ghost predicate Counted()
      reads this`sumPbRecord, this`errPbDecode, this`frames
    {
      && sumPbRecord == |FilterMap(decode, frames)|
      && errPbDecode + sumPbRecord == |frames|
    }

    /** The fields are what the machine computes from the events recorded so far. */
    ghost predicate UpToDate()
      reads this, kernel
    {
      Honest() && View() == Recorded() && Counted()
    }

    ghost predicate Valid()
      reads this, kernel
    {
      UpToDate() && !calling
    }

    constructor (framer: Framer, decode: Bytes -> Option<R>, kernel: Kernel, fromBegin: bool, maxSize: int)
      requires framer.Lawful() && kernel.fs.Valid()
      ensures Valid() && events == [] && phase == M.Idle && frames == []
      ensures this.framer == framer && this.decode == decode && this.kernel == kernel
      ensures isReadFromBegin == fromBegin && maxSizePerBatch == maxSize
      ensures fs0 == kernel.fs && tick0 == kernel.tick
    {
      this.framer, this.decode, this.kernel := framer, decode, kernel;
      isReadFromBegin, maxSizePerBatch := fromBegin, maxSize;
      logFd, fileInfo, initDone, dataBuffer := None, None, false, [];
      sumPbRecord, errPbDecode := 0, 0;
      fs0, tick0 := kernel.fs, kernel.tick;
      events, phase, start, closed, frames := [], M.Idle, 0, [], [];
      moments := [Moment(M.Init(framer, kernel.fs, fromBegin), kernel.tick, false)];
      calling := false;
    }

    /** The outcome of the current call, or Finish, which needs no call: a step that the fields
        have just taken. */
    ghost method Record(e: M.Event, before: M.State)
      requires Honest() && Counted() && before == Recorded() && View() == M.Step(before, e)
      requires M.Due(before, e) && !e.Env?
      requires if e.Finish? then !calling
               else calling && 0 < kernel.tick && Answered(e, kernel.schedule(kernel.tick - 1))
      modifies this`events, this`moments, this`calling
      ensures Valid() && events == old(events) + [e]
    {
      var now := Moment(View(), kernel.tick, false);
      HistorySnoc(kernel.schedule, moments, events, e, now);
      events, moments, calling := events + [e], moments + [now], false;
    }

    /** A system call begins: only the log may change. */
    method Call() returns (t: Turn)
      requires Valid()
      modifies kernel, this`events, this`moments, this`calling
      ensures UpToDate() && calling && events == old(events) + [M.Env(t.changes)]
      ensures kernel.tick == old(kernel.tick) + 1 && t == kernel.schedule(kernel.tick - 1)
      ensures kernel.fs == ApplyAll(old(kernel.fs), t.changes)
    {
      t := kernel.Enter();
      ghost var now := Moment(View(), kernel.tick, true);
      HistorySnoc(kernel.schedule, moments, events, M.Env(t.changes), now);
      events, moments, calling := events + [M.Env(t.changes)], moments + [now], true;
    }

    /** One turn has passed since the log was `fs`. */
    ghost predicate OneTurnOn(fs: FileSystem, tick: nat)
      reads kernel
    {
      kernel.tick == tick + 1 && kernel.fs == LogIn(kernel.schedule, fs, tick)
    }

    ghost predicate HasOpen(file: Option<nat>)
      reads this`logFd
    {
      match file
      case Some(inode) => logFd.Some? && logFd.value.inode == inode
      case None => logFd.None?
    }

    /** What the invariant of the machine says about the fields. */
    ghost method KnowFields()
      requires UpToDate()
      ensures kernel.fs.Valid()
      ensures phase == M.CheckCut || phase == M.Draining ==> logFd.Some?
      ensures phase.Opening? || phase.Seeking? ==> logFd.None?
      ensures phase.Seeking? ==> phase.inode < |kernel.fs.files|
      ensures logFd.Some? ==>
        && logFd.value.inode < |kernel.fs.files| && fileInfo == Some(logFd.value.inode)
        && logFd.value.offset <= |kernel.fs.files[logFd.value.inode]|
    {
      HistoryIsRun(kernel.schedule, moments, events);
      M.EveryRunKeepsInv(framer, fs0, isReadFromBegin, events);
      if logFd.Some? {
        assert M.SpanFits(kernel.fs, M.Spans(View())[|closed|]);
      }
    }

    /** Parses the records in the buffer and keeps the unfinished rest. */
    method DataBufferParse() returns (records: seq<R>)
      requires Counted()
      modifies this`dataBuffer, this`sumPbRecord, this`errPbDecode, this`frames
      ensures Counted()
      ensures dataBuffer == framer.Rest(old(dataBuffer))
      ensures frames == old(frames) + framer.Frames(old(dataBuffer))
      ensures records == Records(framer, decode, old(dataBuffer))
      ensures FilterMap(decode, frames) == old(FilterMap(decode, frames)) + records
    {
      var rest, failures;
      ghost var found := framer.Frames(dataBuffer);
      records, rest, failures := PbBuffParse(framer, decode, dataBuffer);
      FilterMapAppend(decode, frames, found);
      dataBuffer := rest;
      sumPbRecord, errPbDecode := sumPbRecord + |records|, errPbDecode + failures;
      frames := frames + found;
    }

    /** Appends to the buffer what a read returned, and parses. */
    method AppendAndParse(data: Bytes) returns (records: seq<R>)
      requires Counted()
      modifies this`dataBuffer, this`sumPbRecord, this`errPbDecode, this`frames
      ensures Counted()
      ensures View() == M.Absorb(old(View()), data)
      ensures old(frames) <= frames
      ensures FilterMap(decode, frames) == old(FilterMap(decode, frames)) + records
    {
      dataBuffer := dataBuffer + data;
      records := DataBufferParse();
    }

    /** Opens the log and, unless it was opened before, seeks to where reading starts. */
    method LogFileOpen() returns (ok: bool)
      requires Valid() && phase.Opening?
      modifies kernel, this`events, this`moments, this`calling, this`logFd, this`fileInfo, this`initDone, this`phase,
               this`start
      ensures Valid() && old(events) <= events && old(kernel.tick) < kernel.tick
      ensures phase == M.Opened(old(phase.after))
      ensures ok == logFd.Some? && HasOpen(OpensIn(kernel.schedule, old(kernel.fs), old(kernel.tick)))
      ensures ok ==> kernel.tick == old(kernel.tick) + 2
    {
      var inode;
      ok, inode := OpenPath();
      if ok {
        ok := SeekAndStat(inode);
      }
    }

    /** The first half of LogFileOpen: the path may name nothing. */
    method OpenPath() returns (ok: bool, inode: nat)
      requires Valid() && phase.Opening?
      modifies kernel, this`events, this`moments, this`calling, this`phase
      ensures Valid() && old(events) <= events && old(kernel.tick) < kernel.tick && logFd.None?
      ensures phase == if ok then M.Seeking(inode, old(phase).after) else M.Opened(old(phase).after)
      ensures OneTurnOn(old(kernel.fs), old(kernel.tick))
      ensures ok == (kernel.fs.named && !kernel.schedule(old(kernel.tick)).fault)
      ensures ok ==> inode + 1 == |kernel.fs.files|
    {
      var t := Call();
      KnowFields();
      ghost var before := View();
      ok, inode := !t.fault && kernel.fs.named, 0;
      if ok {
        inode := |kernel.fs.files| - 1;
        phase := M.Seeking(inode, phase.after);
      } else {
        phase := M.Opened(phase.after);
      }
      Record(M.OpenPath(t.fault), before);
    }

    /** Where reading a file starts: only the first one may be entered at its end. */
    function Entry(initDone: bool, fs: FileSystem, inode: nat): nat {
      if initDone || isReadFromBegin then 0 else |M.Content(fs, inode)|
    }

    /** The second half of LogFileOpen: the file is open, and is closed again if seek or stat fails. */
    method SeekAndStat(inode: nat) returns (ok: bool)
      requires Valid() && phase.Seeking? && phase.inode == inode
      modifies kernel, this`events, this`moments, this`calling, this`logFd, this`fileInfo, this`initDone, this`phase,
               this`start
      ensures Valid() && old(events) <= events && old(kernel.tick) < kernel.tick
      ensures phase == M.Opened(old(phase.after))
      ensures OneTurnOn(old(kernel.fs), old(kernel.tick))
      ensures ok == logFd.Some? == !kernel.schedule(old(kernel.tick)).fault
      ensures ok ==> logFd == Some(M.Fd(inode, Entry(old(initDone), kernel.fs, inode)))
    {
      var t := Call();
      KnowFields();
      ghost var before := View();
      ok := !t.fault;
      if ok {
        Position(inode);
      } else {
        M.SeekStep(before, true);
        phase := M.Opened(phase.after);
      }
      Record(M.SeekAndStat(t.fault), before);
    }

    /** The open file becomes the one to read: the very first one from its end unless the log is
        to be read from the beginning, every later one from byte 0. */
    method Position(inode: nat)
      requires phase.Seeking? && phase.inode == inode < |kernel.fs.files|
      modifies this`logFd, this`fileInfo, this`initDone, this`phase, this`start
      ensures View() == M.Step(old(View()), M.SeekAndStat(false))
      ensures logFd == Some(M.Fd(inode, Entry(old(initDone), kernel.fs, inode)))
      ensures start == logFd.value.offset && fileInfo == Some(inode) && initDone
      ensures phase == M.Opened(old(phase).after)
    {
      M.SeekStep(View(), false);
      var offset := 0;
      if !initDone && !isReadFromBegin {
        offset := |kernel.fs.files[inode]|;
      }
      phase := M.Opened(phase.after);
      logFd, fileInfo, start := Some(M.Fd(inode, offset)), Some(inode), offset;
      initDone := true;
    }

    /** Closes the file after a read error and forgets what was read. */
    method CloseFileAndInit()
      requires logFd.Some?
      modifies this`logFd, this`dataBuffer, this`initDone, this`closed
      ensures View() == M.CloseAndInit(old(View()))
      ensures logFd.None? && dataBuffer == [] && !initDone
    {
      closed := closed + [M.Span(logFd.value.inode, start, logFd.value.offset, false)];
      logFd := None;
      dataBuffer := [];
      initDone := false;
    }

    /** Whether the path names another file than the open one; if it cannot tell, no. */
    method IsLogCut() returns (cut: bool)
      requires Valid() && phase == M.CheckCut
      modifies kernel, this`events, this`moments, this`calling, this`phase
      ensures Valid() && old(events) <= events && old(kernel.tick) < kernel.tick
      ensures cut == (phase == M.Draining) && (!cut ==> phase == M.Idle)
      ensures OneTurnOn(old(kernel.fs), old(kernel.tick)) && logFd.Some?
      ensures cut == (!kernel.schedule(old(kernel.tick)).fault && kernel.fs.named
                      && |kernel.fs.files| != logFd.value.inode + 1)
    {
      var t := Call();
      ghost var before := View();
      KnowFields();
      cut := CompareFiles(t.fault);
      Record(M.StatForCut(t.fault), before);
    }

    method CompareFiles(fault: bool) returns (cut: bool)
      requires phase == M.CheckCut && kernel.fs.Valid()
      modifies this`phase
      ensures View() == M.Step(old(View()), M.StatForCut(fault))
      ensures cut == (phase == M.Draining) && (!cut ==> phase == M.Idle)
      ensures cut == (!fault && kernel.fs.named && fileInfo != Some(|kernel.fs.files| - 1))
    {
      if fault || !kernel.fs.named {
        cut := false;
      } else {
        cut := fileInfo != Some(|kernel.fs.files| - 1);
      }
      M.CutStep(View(), fault, cut);
      phase := if cut then M.Draining else M.Idle;
    }

    /** How many bytes a read returns: with 0 all there are, otherwise at most `maxSize`. */
    function ReadCount(maxSize: nat, amount: nat, available: nat): (n: nat)
      ensures n <= available
      ensures maxSize == 0 ==> n == available
      ensures maxSize == MAX_BUFF_SIZE && available > 0 ==> n == M.ReadSize(amount, available)
    {
      if maxSize == 0 || available == 0 then available
      else
        var n := M.ReadSize(amount, available);
        if n < maxSize then n else maxSize
    }

    /** One read of at most `maxSize` bytes, or with 0 everything up to the end of the file. */
    method FRead(maxSize: nat, t: Turn) returns (data: Bytes, err: bool)
      requires logFd.Some? && logFd.value.inode < |kernel.fs.files|
      requires logFd.value.offset <= |kernel.fs.files[logFd.value.inode]|
      modifies this`logFd
      ensures err == (t.fault || maxSize > MAX_BUFF_SIZE)
      ensures err ==> data == [] && logFd == old(logFd)
      ensures !err ==>
        var inode, at := old(logFd.value.inode), old(logFd.value.offset);
        var n := ReadCount(maxSize, t.amount, |M.Content(kernel.fs, inode)| - at);
        && logFd == Some(M.Fd(inode, at + n))
        && |data| == n && data == M.Window(kernel.fs, inode, at, at + n)
    {
      if maxSize > MAX_BUFF_SIZE {
        return [], true;
      }
      data, err := [], t.fault;
      if !err {
        var inode, at := logFd.value.inode, logFd.value.offset;
        var file := kernel.fs.files[inode];
        var n := ReadCount(maxSize, t.amount, |file| - at);
        data := file[at..at + n];
        logFd := Some(M.Fd(inode, at + n));
      }
    }

    /** FileRead: one read; if it fails, the file is closed and the state cleared. */
    method FileRead(maxSize: nat, t: Turn) returns (data: Bytes, err: bool)
      requires logFd.Some? && logFd.value.inode < |kernel.fs.files|
      requires logFd.value.offset <= |kernel.fs.files[logFd.value.inode]|
      modifies this`logFd, this`dataBuffer, this`initDone, this`closed
      ensures err == (t.fault || maxSize > MAX_BUFF_SIZE)
      ensures err ==> data == [] && View() == M.CloseAndInit(old(View()))
      ensures !err ==>
        var inode, at := old(logFd.value.inode), old(logFd.value.offset);
        var n := ReadCount(maxSize, t.amount, |M.Content(kernel.fs, inode)| - at);
        && View() == old(View()).(fd := Some(M.Fd(inode, at + n)))
        && |data| == n && data == M.Window(kernel.fs, inode, at, at + n)
    {
      data, err := FRead(maxSize, t);
      if err {
        CloseFileAndInit();
      }
    }

    /** Right after a successful read of the rest of the old file, which is still open. */
    ghost predicate HasDrained(data: Bytes)
      reads this, kernel
    {
      && Honest() && Counted() && calling && 0 < kernel.tick && !kernel.schedule(kernel.tick - 1).fault
      && M.JustDrained(Recorded(), View(), data)
    }

    /** Closes the old file if it is open, and opens the log again. */
    method LogRelocate(ghost data: Bytes)
      requires if logFd.Some? then HasDrained(data) else Valid() && phase.Opening?
      modifies kernel, this`events, this`moments, this`calling, this`logFd, this`fileInfo, this`initDone, this`phase,
               this`start, this`closed
      ensures Valid() && old(events) <= events && old(kernel.tick) < kernel.tick
      ensures old(logFd).Some? ==> phase == M.Finishing(Some(data))
      ensures old(logFd).None? ==> phase == M.Opened(old(phase.after)) && closed == old(closed)
      ensures HasOpen(OpensIn(kernel.schedule, old(kernel.fs), old(kernel.tick)))
      ensures logFd.Some? ==> kernel.tick == old(kernel.tick) + 2
    {
      if logFd.Some? {
        CloseDrained(data);
      }
      var _ := LogFileOpen();
    }

    /** The old file has been read to its end, and is closed. */
    method CloseDrained(ghost data: Bytes)
      requires logFd.Some? && HasDrained(data)
      modifies this`events, this`moments, this`calling, this`logFd, this`phase, this`closed
      ensures Valid() && old(events) <= events && logFd.None? && phase == M.Opening(M.ForSwitch(Some(data)))
    {
      ghost var before := Recorded();
      M.RelocateStep(before, View(), data);
      closed := closed + [M.Span(logFd.value.inode, start, logFd.value.offset, true)];
      logFd := None;
      phase := M.Opening(M.ForSwitch(Some(data)));
      Record(M.ReadAll(false), before);
    }

    /** The file that is open after the end of file `inode` was reached. */
    function FileAfterEof(schedule: nat -> Turn, fs: FileSystem, k: nat, inode: nat): Option<nat> {
      var log := LogIn(schedule, fs, k);
      if schedule(k).fault || !log.named || |log.files| == inode + 1 then Some(inode)
      else OpensIn(schedule, LogIn(schedule, log, k + 1), k + 2)
    }

    /** At the end of the file: if the path names another file, reads what is left of the old one
        and goes over to the new one. */
    method EofHandler() returns (hasNewLog: bool, data: Bytes, err: bool)
      requires Valid() && phase == M.CheckCut && logFd.Some?
      modifies kernel, this`events, this`moments, this`calling, this`logFd, this`fileInfo, this`initDone,
               this`dataBuffer, this`phase, this`start, this`closed
      ensures Valid() && old(events) <= events && old(kernel.tick) < kernel.tick
      ensures !hasNewLog ==> data == [] && !err && phase == M.Idle
      ensures hasNewLog ==> phase == M.Finishing(if err then None else Some(data))
      ensures HasOpen(FileAfterEof(kernel.schedule, old(kernel.fs), old(kernel.tick), old(logFd.value.inode)))
    {
      var cut := IsLogCut();
      if !cut {
        return false, [], false;
      }
      data, err := ReadRest();
      LogRelocate(data);
      hasNewLog := true;
    }

    /** FileRead(0): everything left in the old file; a failing read closes it. */
    method ReadRest() returns (data: Bytes, err: bool)
      requires Valid() && phase == M.Draining
      modifies kernel, this`events, this`moments, this`calling, this`logFd, this`dataBuffer, this`initDone,
               this`closed, this`phase
      ensures old(events) <= events && old(kernel.tick) < kernel.tick
      ensures if err then Valid() && phase == M.Opening(M.ForSwitch(None)) && logFd.None?
              else logFd.Some? && HasDrained(data)
      ensures OneTurnOn(old(kernel.fs), old(kernel.tick))
    {
      var t := Call();
      KnowFields();
      ghost var before := View();
      data, err := Drain(t);
      if err {
        Record(M.ReadAll(true), before);
      }
    }

    method Drain(t: Turn) returns (data: Bytes, err: bool)
      requires phase == M.Draining && logFd.Some? && logFd.value.inode < |kernel.fs.files|
      requires logFd.value.offset <= |kernel.fs.files[logFd.value.inode]|
      modifies this`logFd, this`dataBuffer, this`initDone, this`closed, this`phase
      ensures err == t.fault
      ensures if err then View() == M.Step(old(View()), M.ReadAll(true)) else M.JustDrained(old(View()), View(), data)
      ensures err ==> phase == M.Opening(M.ForSwitch(None)) && logFd.None?
    {
      M.DrainFailsStep(View());
      data, err := FileRead(0, t);
      if err {
        phase := M.Opening(M.ForSwitch(None));
      }
    }

    /** After n other files the reader has entered this one. */
    ghost predicate HasEntered(n: nat, inode: nat)
      reads this, kernel
    {
      n < |M.Spans(View())| && M.Spans(View())[n].inode == inode
    }

    /** The same of an earlier point in time. */
    ghost predicate HadEntered(events: seq<M.Event>, n: nat, inode: nat) {
      var entered := Rotation.Inodes(M.Spans(M.Run(M.Init(framer, fs0, isReadFromBegin), events)));
      n < |entered| && entered[n] == inode
    }

    /** What has been entered stays entered. */
    ghost method KeepEntered(reached: seq<M.Event>, n: nat, inode: nat)
      requires Valid() && reached <= events && HadEntered(reached, n, inode)
      ensures HasEntered(n, inode)
    {
      HistoryIsRun(kernel.schedule, moments, events);
      Rotation.EnteredStays(framer, fs0, isReadFromBegin, reached, events);
      assert Rotation.Inodes(M.Spans(View()))[n] == M.Spans(View())[n].inode;
    }

    ghost method KnowEntered()
      requires Valid() && logFd.Some?
      ensures HadEntered(events, |closed|, logFd.value.inode)
    {
      HistoryIsRun(kernel.schedule, moments, events);
      assert M.Spans(View())[|closed|].inode == logFd.value.inode;
    }

    /** The part of logRead that runs when no file is open. */
    method OpenLog() returns (ok: bool)
      requires Valid() && phase == M.Idle && logFd.None?
      modifies kernel, this`events, this`moments, this`calling, this`logFd, this`fileInfo, this`initDone,
               this`dataBuffer, this`phase, this`start, this`closed
      ensures Valid() && phase == M.Idle && old(events) <= events && old(kernel.tick) < kernel.tick
      ensures ok == logFd.Some? && HasOpen(OpensFrom(kernel.schedule, old(kernel.fs), old(kernel.tick)))
      ensures ok ==> kernel.tick == old(kernel.tick) + 3 && HadEntered(events, |old(closed)|, logFd.value.inode)
    {
      ok := StatPath();
      if ok {
        LogRelocate([]);
        ok := logFd.Some?;
        if ok {
          KnowEntered();
        }
      }
    }

    /** Reads once from the log and parses what came; opens or changes files when necessary. */
    method LogRead() returns (records: seq<R>, failed: bool)
      requires Valid() && phase == M.Idle
      modifies this, kernel
      ensures Valid() && phase == M.Idle && old(events) <= events
      ensures old(frames) <= frames
      ensures FilterMap(decode, frames) == old(FilterMap(decode, frames)) + records
      ensures failed ==> records == [] && frames == old(frames)
      ensures old(kernel.tick) < kernel.tick
      ensures if failed then logFd.None? else ReadBetween(old(events), events)
      ensures match old(logFd)
        case Some(fd) =>
          && failed == kernel.schedule(old(kernel.tick)).fault
          && HasOpen(NextFile(kernel.schedule, old(kernel.fs), old(kernel.tick), fd))
        case None =>
          match OpensFrom(kernel.schedule, old(kernel.fs), old(kernel.tick))
          case Some(inode) => failed == kernel.schedule(old(kernel.tick) + 3).fault && HasEntered(|old(closed)|, inode)
          case None => failed
    {
      if logFd.None? {
        var found := OpenLog();
        if !found {
          return [], true;
        }
      }
      ghost var reached, inode := events, logFd.value.inode;
      records, failed := ReadOpenFile();
      if old(logFd).None? {
        KeepEntered(reached, |old(closed)|, inode);
      }
      if !failed {
        ReadBetweenWiden(old(events), reached, events, events);
      }
    }

    /** Checks that the log is there; only "not exist" counts as absent. */
    method StatPath() returns (found: bool)
      requires Valid() && phase == M.Idle && logFd.None?
      modifies kernel, this`events, this`moments, this`calling, this`dataBuffer, this`phase
      ensures Valid() && old(events) <= events && old(kernel.tick) < kernel.tick
      ensures phase == if found then M.Opening(M.ForRead) else M.Idle
      ensures OneTurnOn(old(kernel.fs), old(kernel.tick))
      ensures found == (kernel.fs.named || kernel.schedule(old(kernel.tick)).fault)
    {
      var t := Call();
      ghost var before := View();
      found := kernel.fs.named || t.fault;
      if found {
        dataBuffer := [];
        phase := M.Opening(M.ForRead);
      }
      Record(M.StatPath(t.fault), before);
    }

    /** The read that logRead makes once a file is open. */
    method ReadOpenFile() returns (records: seq<R>, failed: bool)
      requires Valid() && phase == M.Idle && logFd.Some?
      modifies this, kernel
      ensures Valid() && phase == M.Idle && old(events) <= events
      ensures old(frames) <= frames
      ensures FilterMap(decode, frames) == old(FilterMap(decode, frames)) + records
      ensures failed ==> records == [] && frames == old(frames)
      ensures old(kernel.tick) < kernel.tick
      ensures if failed then logFd.None? else ReadBetween(old(events), events)
      ensures failed == kernel.schedule(old(kernel.tick)).fault
      ensures HasOpen(NextFile(kernel.schedule, old(kernel.fs), old(kernel.tick), old(logFd.value)))
    {
      records := [];
      var data, err, amount := ReadLog();
      failed := err;
      ghost var read := events;
      if !err {
        if data == [] {
          records := ReadAtEof();
          ReadBetweenWiden(old(events), old(events), read, events);
        } else {
          records := AbsorbRead(data, amount);
          ReadSince(old(events), read, amount, events);
        }
      }
    }

    /** Bytes were read from the open file but are not in the buffer yet. */
    ghost predicate HasRead(data: Bytes, amount: nat)
      reads this, kernel
    {
      && Honest() && Counted() && calling && 0 < kernel.tick
      && Answered(M.Read(false, amount), kernel.schedule(kernel.tick - 1))
      && M.JustRead(Recorded(), View(), data, amount)
    }

    /** FileRead(MAX_BUFF_SIZE): what logRead reads from the open file. */
    method ReadLog() returns (data: Bytes, err: bool, ghost amount: nat)
      requires Valid() && phase == M.Idle && logFd.Some?
      modifies kernel, this`events, this`moments, this`calling, this`logFd, this`dataBuffer, this`initDone,
               this`closed, this`phase
      ensures old(events) <= events && old(kernel.tick) < kernel.tick
      ensures err ==> Valid() && phase == M.Idle && logFd.None?
      ensures !err && data == [] ==> Valid() && phase == M.CheckCut && ReadBetween(old(events), events)
      ensures !err && data != [] ==> HasRead(data, amount)
      ensures OneTurnOn(old(kernel.fs), old(kernel.tick)) && err == kernel.schedule(old(kernel.tick)).fault
      ensures !err ==>
        && HasOpen(Some(old(logFd.value.inode)))
        && (data == [] <==> |M.Content(kernel.fs, old(logFd.value.inode))| <= old(logFd.value.offset))
    {
      var t := Call();
      KnowFields();
      ghost var before, called := View(), events;
      amount := t.amount;
      data, err := ReadOnce(t);
      if err || data == [] {
        Record(M.Read(err, amount), before);
      }
      if !err && data == [] {
        ReadSince(old(events), called, amount, events);
      }
    }

    method ReadOnce(t: Turn) returns (data: Bytes, err: bool)
      requires phase == M.Idle && logFd.Some? && logFd.value.inode < |kernel.fs.files|
      requires logFd.value.offset <= |kernel.fs.files[logFd.value.inode]|
      modifies this`logFd, this`dataBuffer, this`initDone, this`closed, this`phase
      ensures err == t.fault && phase == if !err && data == [] then M.CheckCut else M.Idle
      ensures err || data == [] ==> View() == M.Step(old(View()), M.Read(err, t.amount))
      ensures if err then logFd.None? else HasOpen(Some(old(logFd.value.inode)))
      ensures !err ==> (data == [] <==> |M.Content(kernel.fs, old(logFd.value.inode))| <= old(logFd.value.offset))
      ensures !err && data != [] ==> M.JustRead(old(View()), View(), data, t.amount)
    {
      M.ReadReturns(View(), t.fault, t.amount);
      data, err := FileRead(MAX_BUFF_SIZE, t);
      if !err && data == [] {
        phase := M.CheckCut;
      }
    }

    /** Appends what a read returned to the buffer and parses it. */
    method AbsorbRead(data: Bytes, ghost amount: nat) returns (records: seq<R>)
      requires HasRead(data, amount)
      modifies this`events, this`moments, this`calling, this`dataBuffer, this`sumPbRecord, this`errPbDecode, this`frames
      ensures Valid() && events == old(events) + [M.Read(false, amount)]
      ensures old(frames) <= frames
      ensures FilterMap(decode, frames) == old(FilterMap(decode, frames)) + records
    {
      ghost var before := Recorded();
      M.AbsorbStep(before, View(), data, amount);
      records := AppendAndParse(data);
      Record(M.Read(false, amount), before);
    }

    /** The part of logRead that runs when a read returned nothing. */
    method ReadAtEof() returns (records: seq<R>)
      requires Valid() && phase == M.CheckCut && logFd.Some?
      modifies this, kernel
      ensures Valid() && phase == M.Idle && old(events) <= events && old(kernel.tick) < kernel.tick
      ensures old(frames) <= frames
      ensures FilterMap(decode, frames) == old(FilterMap(decode, frames)) + records
      ensures HasOpen(FileAfterEof(kernel.schedule, old(kernel.fs), old(kernel.tick), old(logFd.value.inode)))
    {
      var hasNewLog, data, err := EofHandler();
      ghost var before := View();
      records := ParseOldEnd(hasNewLog, data, err);
      if hasNewLog {
        Record(M.Finish, before);
      }
    }

    /** The end of the old file is parsed behind what the buffer holds of it; if there is a new
        file, what is then left of the old one is dropped. */
    method ParseOldEnd(hasNewLog: bool, data: Bytes, err: bool) returns (records: seq<R>)
      requires Counted()
      requires if hasNewLog then phase == M.Finishing(if err then None else Some(data))
               else data == [] && !err && phase == M.Idle
      modifies this`dataBuffer, this`sumPbRecord, this`errPbDecode, this`frames, this`phase
      ensures Counted() && phase == M.Idle
      ensures View() == if hasNewLog then M.Step(old(View()), M.Finish) else old(View())
      ensures old(frames) <= frames
      ensures FilterMap(decode, frames) == old(FilterMap(decode, frames)) + records
    {
      if hasNewLog {
        M.FinishStep(View());
      }
      records := [];
      if !err && data != [] {
        records := AppendAndParse(data);
      }
      if hasNewLog {
        dataBuffer := [];
        phase := M.Idle;
      }
    }

    /** The reader's main loop, for any number of rounds: every record goes into exactly one of
        the batches that are handed out, in the order of the log. */
    method Start(rounds: nat) returns (batches: seq<seq<R>>)
      requires Valid() && phase == M.Idle && frames == []
      modifies this, kernel
      ensures Valid() && phase == M.Idle && old(events) <= events
      ensures old(kernel.tick) + rounds <= kernel.tick
      ensures Flatten(batches) == FilterMap(decode, frames)
      ensures maxSizePerBatch > 0 ==> forall b :: b in batches ==> 0 < |b| <= maxSizePerBatch
      ensures Rotation.ReadsSucceed(events) && logFd.Some? ==>
        frames == Rotation.Delivery(framer, kernel.fs, Rotation.Inodes(M.Spans(View())),
                                    M.Spans(View())[0].start, logFd.value.offset)
    {
      batches := [];
      for i := 0 to rounds
        invariant Valid() && phase == M.Idle && old(events) <= events
        invariant old(kernel.tick) + i <= kernel.tick
        invariant Flatten(batches) == FilterMap(decode, frames)
        invariant maxSizePerBatch > 0 ==> forall b :: b in batches ==> 0 < |b| <= maxSizePerBatch
      {
        var records, failed := LogRead();
        if !failed {
          var more := FanOut.SplitBatches(records, maxSizePerBatch);
          FlattenAppend(batches, more);
          batches := batches + more;
        }
      }
      if Rotation.ReadsSucceed(events) && logFd.Some? {
        HistoryIsDelivery(framer, fs0, isReadFromBegin, kernel.schedule, moments, events, View());
      }
    }
  }
}
