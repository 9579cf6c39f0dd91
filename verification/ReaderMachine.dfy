/** The log reader daemon as a state machine, one step per system call it makes
    (bfe_log_reader/log_reader.go and the logRead loop of bfe_log_reader/pb_log_reader.go).
    Between any two of its system calls the log may grow, rotate, disappear and reappear.
    Besides the reader's own fields the state keeps what has happened so far: which stretch of
    which file was read (`Spans`) and every frame that was parsed (`frames`). */
module ReaderMachine {
  import opened Sequences
  import opened Framing
  import opened FileSystem

  datatype Fd = Fd(inode: nat, offset: nat)

  /** One opening of one file: bytes start..end were read from it. `drained` says that it was
      closed because of a rotation, after its last byte; otherwise a read error closed it. */
  datatype Span = Span(inode: nat, start: nat, end: nat, drained: bool)

  /** Why the log is being opened: to read it, or because the old file has been rotated away
      and `pending` is what the last read of the old file returned (None: it failed). */
  datatype After = ForRead | ForSwitch(pending: Option<Bytes>)

  datatype Phase =
    | Idle                                   // between two calls of logRead, or about to read
    | CheckCut                               // read returned nothing: compare inodes
    | Draining                               // the path names another file: read the rest
    | Opening(after: After)
    | Seeking(inode: nat, after: After)
    | Finishing(pending: Option<Bytes>)      // parse the rest of the old file, drop its tail

  datatype State = State(
    framer: Framer,
    fromBegin: bool,
    fs: FileSystem,
    fd: Option<Fd>,
    start: nat,
    info: Option<nat>,
    initDone: bool,
    buffer: Bytes,
    phase: Phase,
    closed: seq<Span>,
    frames: seq<Bytes>)

  datatype Event =
    | Env(changes: seq<Change>)
    | StatPath(masked: bool)                 // masked: stat fails, but not with "not exist"
    | OpenPath(fault: bool)
    | SeekAndStat(fault: bool)
    | Read(fault: bool, amount: nat)
    | StatForCut(fault: bool)
    | ReadAll(fault: bool)
    | Finish

  function Init(framer: Framer, fs: FileSystem, fromBegin: bool): State {
    State(framer, fromBegin, fs, None, 0, None, false, [], Idle, [], [])
  }

  function Content(fs: FileSystem, inode: nat): Bytes {
    if inode < |fs.files| then fs.files[inode] else []
  }

  /** Bytes a..b of a file. */
  function Window(fs: FileSystem, inode: nat, a: nat, b: nat): Bytes {
    var file := Content(fs, inode);
    if a <= b <= |file| then file[a..b] else []
  }

  function CloseSpan(s: State, end: nat, drained: bool): State
    requires s.fd.Some?
  {
    s.(fd := None, closed := s.closed + [Span(s.fd.value.inode, s.start, end, drained)])
  }

  /** CloseFileAndInit. */
  function CloseAndInit(s: State): State
    requires s.fd.Some?
  {
    CloseSpan(s, s.fd.value.offset, false).(buffer := [], initDone := false)
  }

  /** DataBuffer = append(DataBuffer, data...), then DataBufferParse. */
  function Absorb(s: State, data: Bytes): State {
    var parsed := s.framer.parse(s.buffer + data);
    s.(buffer := parsed.rest, frames := s.frames + parsed.frames)
  }

  /** How many bytes one read returns when `amount` are offered: never none, never too many. */
  function ReadSize(amount: nat, available: nat): (n: nat)
    requires available > 0
    ensures 1 <= n <= available && n <= MAX_BUFF_SIZE
  {
    var most := if available < MAX_BUFF_SIZE then available else MAX_BUFF_SIZE;
    if amount < 1 then 1 else if amount > most then most else amount
  }

  /** Where the reader is when opening is over. */
  function Opened(after: After): Phase {
    match after case ForRead => Idle case ForSwitch(pending) => Finishing(pending)
  }

  function AfterOpen(s: State, after: After): State {
    s.(phase := Opened(after))
  }

  function StepStatPath(s: State, masked: bool): State {
    if !s.fs.named && !masked then s else s.(buffer := [], phase := Opening(ForRead))
  }

  function StepOpen(s: State, fault: bool): State
    requires s.phase.Opening?
  {
    if fault || !s.fs.named || s.fs.files == [] then AfterOpen(s, s.phase.after)
    else s.(phase := Seeking(|s.fs.files| - 1, s.phase.after))
  }

  function StartOffset(s: State, inode: nat): nat {
    if s.initDone || s.fromBegin then 0 else |Content(s.fs, inode)|
  }

  function StepSeek(s: State, fault: bool): State
    requires s.phase.Seeking?
  {
    var i := s.phase.inode;
    if fault then AfterOpen(s, s.phase.after)
    else
      var at := StartOffset(s, i);
      AfterOpen(s, s.phase.after).(fd := Some(Fd(i, at)), start := at, info := Some(i), initDone := true)
  }

  function StepRead(s: State, fault: bool, amount: nat): State
    requires s.fd.Some?
  {
    var Fd(i, at) := s.fd.value;
    var file := Content(s.fs, i);
    if fault then CloseAndInit(s)
    else if at >= |file| then s.(phase := CheckCut)
    else
      var n := ReadSize(amount, |file| - at);
      Absorb(s, Window(s.fs, i, at, at + n)).(fd := Some(Fd(i, at + n)))
  }

  function StepStatForCut(s: State, fault: bool): State {
    if fault || !s.fs.named || s.info == Some(|s.fs.files| - 1) then s.(phase := Idle)
    else s.(phase := Draining)
  }

  function StepReadAll(s: State, fault: bool): State
    requires s.fd.Some?
  {
    var Fd(i, at) := s.fd.value;
    var file := Content(s.fs, i);
    if fault then CloseAndInit(s).(phase := Opening(ForSwitch(None)))
    else
      var data := Window(s.fs, i, at, |file|);
      CloseSpan(s, at + |data|, true).(phase := Opening(ForSwitch(Some(data))))
  }

  function StepFinish(s: State): State
    requires s.phase.Finishing?
  {
    var parsed := match s.phase.pending
      case Some(data) => if data == [] then s else Absorb(s, data)
      case None => s;
    parsed.(buffer := [], phase := Idle)
  }

  /** The next system call of the reader; a call it would not make here changes nothing. */
  function Step(s: State, e: Event): State {
    match e
    case Env(changes) => s.(fs := ApplyAll(s.fs, changes))
    case StatPath(masked) => if s.phase == Idle && s.fd.None? then StepStatPath(s, masked) else s
    case OpenPath(fault) => if s.phase.Opening? then StepOpen(s, fault) else s
    case SeekAndStat(fault) => if s.phase.Seeking? then StepSeek(s, fault) else s
    case Read(fault, n) => if s.phase == Idle && s.fd.Some? then StepRead(s, fault, n) else s
    case StatForCut(fault) => if s.phase == CheckCut then StepStatForCut(s, fault) else s
    case ReadAll(fault) => if s.phase == Draining && s.fd.Some? then StepReadAll(s, fault) else s
    case Finish => if s.phase.Finishing? then StepFinish(s) else s
  }

  /** Whether this is the call the reader makes next. */
  predicate Due(s: State, e: Event) {
    match e
    case Env(_) => true
    case StatPath(_) => s.phase == Idle && s.fd.None?
    case OpenPath(_) => s.phase.Opening?
    case SeekAndStat(_) => s.phase.Seeking?
    case Read(_, _) => s.phase == Idle && s.fd.Some?
    case StatForCut(_) => s.phase == CheckCut
    case ReadAll(_) => s.phase == Draining
    case Finish => s.phase.Finishing?
  }

  /** The three outcomes of a read. */
  lemma ReadReturns(s: State, fault: bool, amount: nat)
    requires s.phase == Idle && s.fd.Some?
    ensures var t, i, at := Step(s, Read(fault, amount)), s.fd.value.inode, s.fd.value.offset;
      if fault then t == CloseAndInit(s)
      else if at >= |Content(s.fs, i)| then t == s.(phase := CheckCut)
      else
        var n := ReadSize(amount, |Content(s.fs, i)| - at);
        t == Absorb(s, Window(s.fs, i, at, at + n)).(fd := Some(Fd(i, at + n)))
  {
  }

  /** `now` is `before` except that `data`, all that one successful read returned, has been read
      from the open file. */
  ghost predicate JustRead(before: State, now: State, data: Bytes, amount: nat) {
    && before.phase == Idle && before.fd.Some?
    && var Fd(i, at) := before.fd.value;
       var available := |Content(before.fs, i)| - at;
       && available > 0 && data == Window(before.fs, i, at, at + ReadSize(amount, available))
       && now == before.(fd := Some(Fd(i, at + ReadSize(amount, available))))
  }

  lemma AbsorbStep(before: State, now: State, data: Bytes, amount: nat)
    requires JustRead(before, now, data, amount)
    ensures Step(before, Read(false, amount)) == Absorb(now, data)
  {
    ReadReturns(before, false, amount);
  }

  /** `now` is `before` except that `data`, the rest of the open file, has been read from it. */
  ghost predicate JustDrained(before: State, now: State, data: Bytes) {
    && before.phase == Draining && before.fd.Some?
    && var Fd(i, at) := before.fd.value;
       && at <= |Content(before.fs, i)|
       && data == Window(before.fs, i, at, |Content(before.fs, i)|)
       && now == before.(fd := Some(Fd(i, |Content(before.fs, i)|)))
  }

  lemma RelocateStep(before: State, now: State, data: Bytes)
    requires JustDrained(before, now, data)
    ensures Step(before, ReadAll(false))
         == CloseSpan(now, now.fd.value.offset, true).(phase := Opening(ForSwitch(Some(data))))
  {
  }

  lemma DrainFailsStep(s: State)
    requires s.phase == Draining && s.fd.Some?
    ensures Step(s, ReadAll(true)) == CloseAndInit(s).(phase := Opening(ForSwitch(None)))
  {
  }

  lemma CutStep(s: State, fault: bool, cut: bool)
    requires s.phase == CheckCut && cut == (!fault && s.fs.named && s.info != Some(|s.fs.files| - 1))
    ensures Step(s, StatForCut(fault)) == s.(phase := if cut then Draining else Idle)
  {
  }

  lemma SeekStep(s: State, fault: bool)
    requires s.phase.Seeking?
    ensures var i, at := s.phase.inode, StartOffset(s, s.phase.inode);
      Step(s, SeekAndStat(fault))
      == if fault then AfterOpen(s, s.phase.after)
         else AfterOpen(s, s.phase.after).(fd := Some(Fd(i, at)), start := at, info := Some(i), initDone := true)
  {
  }

  lemma FinishStep(s: State)
    requires s.phase.Finishing?
    ensures Step(s, Finish) == match s.phase.pending
      case Some(data) => (if data == [] then s else Absorb(s, data)).(buffer := [], phase := Idle)
      case None => s.(buffer := [], phase := Idle)
  {
  }

  function Run(s: State, events: seq<Event>): State
    decreases |events|
  {
    if events == [] then s
    else Step(Run(s, events[..|events| - 1]), events[|events| - 1])
  }

  // ---------------------------------------------------------------- what was read

  function Spans(s: State): seq<Span> {
    s.closed + match s.fd
      case Some(fd) => [Span(fd.inode, s.start, fd.offset, false)]
      case None => []
  }

  function SpanFrames(f: Framer, fs: FileSystem, spans: seq<Span>): seq<Bytes>
    decreases |spans|
  {
    if spans == [] then []
    else
      var last := spans[|spans| - 1];
      SpanFrames(f, fs, spans[..|spans| - 1]) + f.Frames(Window(fs, last.inode, last.start, last.end))
  }

  ghost predicate SpanFits(fs: FileSystem, p: Span) {
    && p.inode < |fs.files|
    && p.start <= p.end <= |fs.files[p.inode]|
    && (p.drained ==> p.inode + 1 < |fs.files| && p.end == |fs.files[p.inode]|)
  }

  /** How an opening relates to the one before it. */
  ghost predicate Follows(fromBegin: bool, p: Span, q: Span) {
    && p.inode <= q.inode
    && (p.drained ==> p.inode < q.inode && q.start == 0)
    && (fromBegin ==> q.start == 0)
    && (!fromBegin && p.inode == q.inode ==> p.end <= q.start)
  }

  ghost predicate InOrder(fromBegin: bool, spans: seq<Span>) {
    && (spans != [] && fromBegin ==> spans[0].start == 0)
    && (forall i, j :: 0 <= i && j == i + 1 && j < |spans| ==> Follows(fromBegin, spans[i], spans[j]))
  }

  /** What the old file still owes: bytes that were read from it but not parsed yet. */
  function Owed(s: State): Option<Bytes> {
    match s.phase
    case Opening(ForSwitch(pending)) => pending
    case Seeking(_, ForSwitch(pending)) => pending
    case Finishing(pending) => pending
    case _ => None
  }

  /** The old file is closed and its tail is still in the buffer. */
  predicate Switching(s: State) {
    match s.phase
    case Opening(after) => after.ForSwitch?
    case Seeking(_, after) => after.ForSwitch?
    case Finishing(_) => true
    case _ => false
  }

  ghost predicate FdInv(s: State) {
    && (s.fd.Some? ==> s.initDone && s.info == Some(s.fd.value.inode))
    && (s.fd.None? ==> s.initDone == (s.closed != [] && s.closed[|s.closed| - 1].drained))
    && (s.phase == CheckCut || s.phase == Draining ==> s.fd.Some?)
    && (s.phase.Opening? || s.phase.Seeking? ==> s.fd.None?)
    && (s.phase == Draining && s.fd.Some? ==> s.fd.value.inode + 1 < |s.fs.files|)
    && (s.phase.Seeking? ==>
          && s.phase.inode < |s.fs.files|
          && (s.closed != [] ==> Reopens(s.closed[|s.closed| - 1], s.phase.inode)))
  }

  ghost predicate Reopens(p: Span, inode: nat) {
    p.inode <= inode && (p.drained ==> p.inode < inode)
  }

  /** `frames`, together with what the owed bytes still complete, are `all` the frames. */
  ghost predicate Completes(f: Framer, frames: seq<Bytes>, buffer: Bytes, owed: Option<Bytes>, all: seq<Bytes>) {
    match owed
    case Some(data) => frames + f.Frames(buffer + data) == all
    case None => frames == all
  }

  ghost predicate BufferInv(s: State) {
    if Switching(s) then Completes(s.framer, s.frames, s.buffer, Owed(s), SpanFrames(s.framer, s.fs, s.closed))
    else
      && s.frames == SpanFrames(s.framer, s.fs, Spans(s))
      && s.buffer == match s.fd
           case Some(fd) => s.framer.Rest(Window(s.fs, fd.inode, s.start, fd.offset))
           case None => []
  }

  ghost predicate AllFit(fs: FileSystem, spans: seq<Span>) {
    forall i :: 0 <= i < |spans| ==> SpanFits(fs, spans[i])
  }

  ghost predicate Inv(s: State) {
    && s.framer.Lawful()
    && s.fs.Valid()
    && AllFit(s.fs, Spans(s))
    && InOrder(s.fromBegin, Spans(s))
    && FdInv(s)
    && BufferInv(s)
    && (Switching(s) ==> s.framer.Frames(s.buffer) == [] && (s.fd.Some? ==> s.fd.value.offset == s.start))
  }

  // ---------------------------------------------------------------- the invariant holds

  lemma WindowAppend(fs: FileSystem, inode: nat, a: nat, b: nat, c: nat)
    requires a <= b <= c <= |Content(fs, inode)|
    ensures Window(fs, inode, a, c) == Window(fs, inode, a, b) + Window(fs, inode, b, c)
    ensures |Window(fs, inode, b, c)| == c - b
  {
  }

  lemma SpanFramesSnoc(f: Framer, fs: FileSystem, spans: seq<Span>, p: Span)
    ensures SpanFrames(f, fs, spans + [p])
         == SpanFrames(f, fs, spans) + f.Frames(Window(fs, p.inode, p.start, p.end))
  {
    assert (spans + [p])[..|spans|] == spans;
  }

  lemma {:induction false} SpansSurviveGrowth(f: Framer, fs: FileSystem, r: FileSystem, spans: seq<Span>)
    requires Grows(fs, r)
    requires AllFit(fs, spans)
    ensures AllFit(r, spans)
    ensures SpanFrames(f, r, spans) == SpanFrames(f, fs, spans)
    decreases |spans|
  {
    if spans != [] {
      var last := spans[|spans| - 1];
      SpansSurviveGrowth(f, fs, r, spans[..|spans| - 1]);
      assert SpanFits(fs, last);
      assert Window(r, last.inode, last.start, last.end) == Window(fs, last.inode, last.start, last.end);
    }
  }

  lemma ClosedSpansFit(s: State)
    requires AllFit(s.fs, Spans(s))
    ensures AllFit(s.fs, s.closed)
  {
    assert forall i :: 0 <= i < |s.closed| ==> s.closed[i] == Spans(s)[i];
  }

  lemma GrowthKeepsBuffer(s: State, r: FileSystem)
    requires AllFit(s.fs, Spans(s)) && BufferInv(s) && Grows(s.fs, r)
    ensures BufferInv(s.(fs := r))
  {
    var t := s.(fs := r);
    if Switching(s) {
      ClosedSpansFit(s);
      SpansSurviveGrowth(s.framer, s.fs, r, s.closed);
      assert Switching(t) && Owed(t) == Owed(s);
    } else {
      assert Spans(t) == Spans(s);
      SpansSurviveGrowth(s.framer, s.fs, r, Spans(s));
      if s.fd.Some? {
        var i, a, b := s.fd.value.inode, s.start, s.fd.value.offset;
        assert SpanFits(s.fs, Spans(s)[|s.closed|]);
        assert Window(r, i, a, b) == Window(s.fs, i, a, b);
      }
    }
  }

  lemma GrowthKeepsInv(s: State, r: FileSystem)
    requires Inv(s) && Grows(s.fs, r) && r.Valid()
    ensures Inv(s.(fs := r))
  {
    var t := s.(fs := r);
    assert Spans(t) == Spans(s);
    SpansSurviveGrowth(s.framer, s.fs, r, Spans(s));
    GrowthKeepsBuffer(s, r);
  }

  lemma EnvKeepsInv(s: State, changes: seq<Change>)
    requires Inv(s)
    ensures Inv(Step(s, Env(changes)))
  {
    ChangesGrow(s.fs, changes);
    GrowthKeepsInv(s, ApplyAll(s.fs, changes));
  }

  lemma EmptyWindow(f: Framer, fs: FileSystem, inode: nat, a: nat)
    requires f.Lawful()
    ensures Window(fs, inode, a, a) == [] && f.parse([]) == Parsed([], [])
  {
    f.NothingToParse();
  }

  lemma OpenKeepsInv(s: State, fault: bool)
    requires Inv(s) && s.phase.Opening?
    ensures Inv(StepOpen(s, fault))
  {
    var t := StepOpen(s, fault);
    assert Spans(t) == Spans(s) == s.closed;
    assert Switching(t) == Switching(s) && Owed(t) == Owed(s);
    if s.closed != [] {
      assert SpanFits(s.fs, s.closed[|s.closed| - 1]);
    }
  }

  lemma OpenedSpanFits(s: State, at: nat)
    requires Inv(s) && s.phase.Seeking? && at == StartOffset(s, s.phase.inode)
    ensures var p := Span(s.phase.inode, at, at, false);
      AllFit(s.fs, s.closed + [p]) && InOrder(s.fromBegin, s.closed + [p])
  {
    var p := Span(s.phase.inode, at, at, false);
    assert Spans(s) == s.closed;
    assert SpanFits(s.fs, p);
    if s.closed != [] {
      var last := s.closed[|s.closed| - 1];
      assert SpanFits(s.fs, last);
      assert Follows(s.fromBegin, last, p);
    }
  }

  lemma FailedSeekKeepsInv(s: State)
    requires Inv(s) && s.phase.Seeking?
    ensures Inv(StepSeek(s, true))
  {
    var t := StepSeek(s, true);
    assert Spans(t) == Spans(s);
    assert Switching(t) == Switching(s) && Owed(t) == Owed(s);
  }

  lemma SeekKeepsInv(s: State)
    requires Inv(s) && s.phase.Seeking?
    ensures Inv(StepSeek(s, false))
  {
    var t := StepSeek(s, false);
    var p := Span(s.phase.inode, t.start, t.start, false);
    assert Spans(s) == s.closed && Spans(t) == s.closed + [p];
    OpenedSpanFits(s, t.start);
    EmptyWindow(s.framer, s.fs, p.inode, t.start);
    SpanFramesSnoc(s.framer, s.fs, s.closed, p);
    assert Switching(t) == Switching(s) && Owed(t) == Owed(s);
  }

  lemma StatKeepsInv(s: State, masked: bool)
    requires Inv(s) && s.phase == Idle && s.fd.None?
    ensures Inv(StepStatPath(s, masked))
  {
    assert Spans(StepStatPath(s, masked)) == Spans(s);
  }

  lemma StatForCutKeepsInv(s: State, fault: bool)
    requires Inv(s) && s.phase == CheckCut
    ensures Inv(StepStatForCut(s, fault))
  {
    assert Spans(StepStatForCut(s, fault)) == Spans(s);
    assert SpanFits(s.fs, Spans(s)[|s.closed|]);
  }

  /** Parsing `data` behind what a parse of `w` left over completes the parse of `w + data`. */
  lemma Extend(f: Framer, frames: seq<Bytes>, before: seq<Bytes>, w: Bytes, data: Bytes)
    requires f.Lawful()
    requires frames == before + f.Frames(w)
    ensures frames + f.Frames(f.Rest(w) + data) == before + f.Frames(w + data)
    ensures f.Rest(f.Rest(w) + data) == f.Rest(w + data)
  {
    f.Append(w, data);
    var x, y := f.Frames(w), f.Frames(f.Rest(w) + data);
    assert (before + x) + y == before + (x + y);
  }

  /** The open span together with the bytes behind it, up to `to`. */
  lemma OpenSpanExtends(s: State, to: nat, drained: bool)
    requires Inv(s) && !Switching(s) && s.fd.Some?
    requires s.fd.value.offset <= to <= |Content(s.fs, s.fd.value.inode)|
    ensures var Fd(i, at) := s.fd.value;
      var data := Window(s.fs, i, at, to);
      && |data| == to - at
      && s.frames + s.framer.Frames(s.buffer + data)
         == SpanFrames(s.framer, s.fs, s.closed + [Span(i, s.start, to, drained)])
      && s.framer.Rest(s.buffer + data) == s.framer.Rest(Window(s.fs, i, s.start, to))
  {
    var Fd(i, at) := s.fd.value;
    assert SpanFits(s.fs, Spans(s)[|s.closed|]);
    WindowAppend(s.fs, i, s.start, at, to);
    SpanFramesSnoc(s.framer, s.fs, s.closed, Span(i, s.start, at, false));
    SpanFramesSnoc(s.framer, s.fs, s.closed, Span(i, s.start, to, drained));
    Extend(s.framer, s.frames, SpanFrames(s.framer, s.fs, s.closed), Window(s.fs, i, s.start, at),
           Window(s.fs, i, at, to));
  }

  /** Moving the end of the last span forward keeps the spans in order. */
  lemma LastSpanMoves(s: State, to: nat, drained: bool)
    requires Inv(s) && s.fd.Some?
    requires s.fd.value.offset <= to
    ensures var q := Span(s.fd.value.inode, s.start, to, drained);
      && InOrder(s.fromBegin, s.closed + [q])
      && (SpanFits(s.fs, q) ==> AllFit(s.fs, s.closed + [q]))
  {
    var q := Span(s.fd.value.inode, s.start, to, drained);
    var k := |s.closed|;
    var spans := s.closed + [q];
    assert forall i :: 0 <= i < k ==> spans[i] == Spans(s)[i];
    if k > 0 {
      assert Follows(s.fromBegin, Spans(s)[k - 1], Spans(s)[k]);
      assert Follows(s.fromBegin, spans[k - 1], spans[k]);
    }
  }

  lemma OffsetIsInFile(s: State)
    requires Inv(s) && s.fd.Some?
    ensures s.fd.value.inode < |s.fs.files| && s.start <= s.fd.value.offset <= |Content(s.fs, s.fd.value.inode)|
  {
    assert SpanFits(s.fs, Spans(s)[|s.closed|]);
  }

  lemma FaultKeepsInv(s: State, next: Phase)
    requires Inv(s) && !Switching(s) && s.fd.Some?
    requires next == Idle || next == Opening(ForSwitch(None))
    ensures Inv(CloseAndInit(s).(phase := next))
  {
    assert Spans(CloseAndInit(s)) == Spans(s);
    EmptyWindow(s.framer, s.fs, 0, 0);
  }

  lemma FailedReadKeepsInv(s: State, amount: nat)
    requires Inv(s) && s.phase == Idle && s.fd.Some?
    ensures Inv(StepRead(s, true, amount))
  {
    FaultKeepsInv(s, Idle);
    assert StepRead(s, true, amount) == CloseAndInit(s).(phase := Idle);
  }

  lemma EmptyReadKeepsInv(s: State, amount: nat)
    requires Inv(s) && s.phase == Idle && s.fd.Some?
    requires s.fd.value.offset >= |Content(s.fs, s.fd.value.inode)|
    ensures Inv(StepRead(s, false, amount))
  {
    var t := StepRead(s, false, amount);
    assert t == s.(phase := CheckCut);
    assert Spans(t) == Spans(s);
  }

  /** The open span grows by what was read, and the buffer is what a parse of it leaves over. */
  lemma FullReadKeepsBuffer(s: State, to: nat)
    requires Inv(s) && s.phase == Idle && s.fd.Some?
    requires s.fd.value.offset <= to <= |Content(s.fs, s.fd.value.inode)|
    ensures var Fd(i, at) := s.fd.value;
      var t := Absorb(s, Window(s.fs, i, at, to)).(fd := Some(Fd(i, to)));
      BufferInv(t) && Spans(t) == s.closed + [Span(i, s.start, to, false)]
  {
    OpenSpanExtends(s, to, false);
  }

  lemma FullReadKeepsInv(s: State, amount: nat)
    requires Inv(s) && s.phase == Idle && s.fd.Some?
    requires s.fd.value.offset < |Content(s.fs, s.fd.value.inode)|
    ensures Inv(StepRead(s, false, amount))
  {
    var Fd(i, at) := s.fd.value;
    var to := at + ReadSize(amount, |Content(s.fs, i)| - at);
    OffsetIsInFile(s);
    FullReadKeepsBuffer(s, to);
    LastSpanMoves(s, to, false);
    assert StepRead(s, false, amount) == Absorb(s, Window(s.fs, i, at, to)).(fd := Some(Fd(i, to)));
  }

  lemma ReadKeepsInv(s: State, fault: bool, amount: nat)
    requires Inv(s) && s.phase == Idle && s.fd.Some?
    ensures Inv(StepRead(s, fault, amount))
  {
    if fault {
      FailedReadKeepsInv(s, amount);
    } else if s.fd.value.offset >= |Content(s.fs, s.fd.value.inode)| {
      EmptyReadKeepsInv(s, amount);
    } else {
      FullReadKeepsInv(s, amount);
    }
  }

  lemma DrainOwesTheRest(s: State)
    requires Inv(s) && s.phase == Draining
    ensures BufferInv(StepReadAll(s, false)) && s.framer.Frames(s.buffer) == []
  {
    var Fd(i, at) := s.fd.value;
    var to := |Content(s.fs, i)|;
    OffsetIsInFile(s);
    OpenSpanExtends(s, to, true);
    s.framer.RestIsIdle(Window(s.fs, i, s.start, at));
    var t := StepReadAll(s, false);
    assert t.closed == s.closed + [Span(i, s.start, to, true)];
    assert t.phase == Opening(ForSwitch(Some(Window(s.fs, i, at, to))));
  }

  lemma ReadAllKeepsInv(s: State, fault: bool)
    requires Inv(s) && s.phase == Draining
    ensures Inv(StepReadAll(s, fault))
  {
    var t := StepReadAll(s, fault);
    if fault {
      FaultKeepsInv(s, Opening(ForSwitch(None)));
    } else {
      var Fd(i, at) := s.fd.value;
      var to := |Content(s.fs, i)|;
      assert SpanFits(s.fs, Spans(s)[|s.closed|]);
      DrainOwesTheRest(s);
      LastSpanMoves(s, to, true);
      assert Spans(t) == t.closed == s.closed + [Span(i, s.start, to, true)];
    }
  }

  lemma FinishCompletes(s: State)
    requires Inv(s) && s.phase.Finishing?
    ensures StepFinish(s).frames == SpanFrames(s.framer, s.fs, s.closed)
  {
    if s.phase.pending == Some([]) {
      assert s.buffer + [] == s.buffer;
    }
  }

  /** A file just opened, of which nothing has been read, adds nothing. */
  lemma FreshFileAddsNothing(s: State)
    requires s.framer.Lawful() && s.fd.Some? && s.fd.value.offset == s.start
    ensures SpanFrames(s.framer, s.fs, Spans(s)) == SpanFrames(s.framer, s.fs, s.closed)
    ensures s.framer.Rest(Window(s.fs, s.fd.value.inode, s.start, s.fd.value.offset)) == []
  {
    EmptyWindow(s.framer, s.fs, s.fd.value.inode, s.start);
    SpanFramesSnoc(s.framer, s.fs, s.closed, Span(s.fd.value.inode, s.start, s.start, false));
  }

  lemma FinishKeepsInv(s: State)
    requires Inv(s) && s.phase.Finishing?
    ensures Inv(StepFinish(s))
  {
    var t := StepFinish(s);
    FinishCompletes(s);
    assert Spans(t) == Spans(s);
    if s.fd.Some? {
      FreshFileAddsNothing(s);
    } else {
      assert Spans(s) == s.closed;
    }
    assert BufferInv(t);
  }

  lemma StepKeepsInv(s: State, e: Event)
    requires Inv(s)
    ensures Inv(Step(s, e))
  {
    match e
    case Env(changes) => EnvKeepsInv(s, changes);
    case StatPath(masked) => if s.phase == Idle && s.fd.None? { StatKeepsInv(s, masked); }
    case OpenPath(fault) => if s.phase.Opening? { OpenKeepsInv(s, fault); }
    case SeekAndStat(fault) =>
      if s.phase.Seeking? {
        if fault { FailedSeekKeepsInv(s); } else { SeekKeepsInv(s); }
      }
    case Read(fault, n) => if s.phase == Idle && s.fd.Some? { ReadKeepsInv(s, fault, n); }
    case StatForCut(fault) => if s.phase == CheckCut { StatForCutKeepsInv(s, fault); }
    case ReadAll(fault) => if s.phase == Draining { ReadAllKeepsInv(s, fault); }
    case Finish => if s.phase.Finishing? { FinishKeepsInv(s); }
  }

  /** Every reachable state of the reader, whatever fails and however the log changes. */
  lemma {:induction false} EveryRunKeepsInv(f: Framer, fs: FileSystem, fromBegin: bool, events: seq<Event>)
    requires f.Lawful() && fs.Valid()
    ensures Inv(Run(Init(f, fs, fromBegin), events))
    decreases |events|
  {
    if events != [] {
      EveryRunKeepsInv(f, fs, fromBegin, events[..|events| - 1]);
      StepKeepsInv(Run(Init(f, fs, fromBegin), events[..|events| - 1]), events[|events| - 1]);
    }
  }
}
