/** The MySQL writer with the fields and methods of the source: RecordWriter
    (reader_modules/mod_log_mysql/record_writer.go) and the loop of Update
    (reader_modules/mod_log_mysql/mod_log_mysql.go). `Valid` says that the fields are what some run of
    the writer machine leads to, so what is proved of every run holds of this code. What the other
    goroutines do, what `select` picks and how the database answers is fixed by an arbitrary
    `schedule`. */
module RecordWriter {
  import opened Sequences
  import opened DetailTable
  import opened M = WriterMachine
  import opened Turns
  import opened UpdateLoop
  import MysqlWriter
  import Statement

  /** Which ready case `select` takes. */
  datatype Choice = PickStop | PickRow | PickTick

  /** What happens up to one step of the writer goroutine: steps of Update and Close, then the
      choice or the answer the step depends on. */
  datatype Turn = Turn(others: seq<Event>, choice: Choice, outcome: Outcome)

  /** The counters after so many entries, of which some were requests with a row, some requests
      without, and `sent` rows were queued. */
  ghost predicate Tallied(was: Tally, now: Tally, logs: nat, rows: nat, failed: nat, sent: nat) {
    && sent <= rows
    && now == was.(receivedLogs := was.receivedLogs + logs, receivedReq := was.receivedReq + failed + rows,
                   convertFailed := was.convertFailed + failed, sentToMysql := was.sentToMysql + sent,
                   chnFull := was.chnFull + rows - sent)
  }

  /** What Update changes: the queue, what has been accepted so far, and the counters. */
  datatype Intake = Intake(queue: seq<Row>, accepted: seq<Row>, tally: Tally)

  /** From `was` to `now` by handling the entries. */
  ghost predicate Handled(was: Intake, now: Intake, entries: seq<Entry<Row>>, capacity: nat) {
    var h := Handle(was.queue, entries, capacity);
    && now.queue == was.queue + h.sent && now.accepted == was.accepted + h.sent
    && Tallied(was.tally, now.tally, h.logs, h.made, h.failed, |h.sent|)
  }

  lemma HandledNone(was: Intake, capacity: nat)
    requires |was.queue| <= capacity
    ensures Handled(was, was, [], capacity)
  {
    assert was.queue + [] == was.queue && was.accepted + [] == was.accepted;
  }

  lemma HandledJoin(was: Intake, mid: Intake, now: Intake, a: seq<Entry<Row>>, b: seq<Entry<Row>>,
                    capacity: nat)
    requires |was.queue| <= capacity && Handled(was, mid, a, capacity) && Handled(mid, now, b, capacity)
    ensures Handled(was, now, a + b, capacity)
  {
    HandleJoin(was.queue, a, b, capacity);
    var x, y := Handle(was.queue, a, capacity).sent, Handle(mid.queue, b, capacity).sent;
    Reassociate(was.queue, x, y);
    Reassociate(was.accepted, x, y);
  }

  lemma HandledOn(was: Intake, mid: Intake, now: Intake, entries: seq<Entry<Row>>, i: nat, capacity: nat)
    requires |was.queue| <= capacity && i < |entries|
    requires Handled(was, mid, entries[..i], capacity) && Handled(mid, now, [entries[i]], capacity)
    ensures Handled(was, now, entries[..i + 1], capacity)
  {
    HandledJoin(was, mid, now, entries[..i], [entries[i]], capacity);
    NextEntry(entries, i);
  }

  /** ToRow builds rows with a cell for every column. */
  predicate Fits(entry: Entry<Row>, width: nat) {
    entry.made.Some? ==> |entry.made.value| == width
  }

  // ---------------------------------------------------------------- turns

  /** How the database answers an attempt to write a batch. */
  function Answer(outcome: Outcome, batch: seq<Row>): Outcome {
    if AllStorable(batch) then outcome else FailedUnapplied
  }

  /** What the writer goroutine does in its turn. */
  function Act(s: State, t: Turn): State {
    match s.phase
    case Selecting =>
      if t.choice == PickStop && s.stopping then Step(s, SeeStop)
      else if t.choice == PickRow && s.queue != [] then Step(s, TakeRow)
      else if t.choice == PickTick && s.batch != [] then Step(s, Tick)
      else s
    case Draining => if s.queue != [] then Step(s, TakeRow) else Step(s, SeeEmpty)
    case Writing(_, _, _) => Step(s, Attempt(Answer(t.outcome, s.batch)))
    case _ => s
  }

  /** One turn: the other goroutines run, then the writer. */
  function TurnStep(s: State, t: Turn): State {
    Act(OtherSteps(s, t.others), t)
  }

  /** A turn in which the batch is sent to the database. */
  lemma AttemptTurn(s: State, schedule: nat -> Turn, tick: nat, u: State)
    requires var r := OtherSteps(s, schedule(tick).others);
      r.phase.Writing? && u == Step(r, Attempt(Answer(schedule(tick).outcome, r.batch)))
    ensures Ran(s, TurnStep, schedule, tick, u, tick + 1)
  {
    OneTurn(s, TurnStep, schedule, tick);
  }

  /** Close has been seen: the writer is in the drain loop, or on its way out with an empty queue. */
  ghost predicate Closing(s: State) {
    && s.phase != Selecting && (s.phase.Writing? ==> s.phase.resume != ToSelect)
    && (MysqlWriter.Leaving(s) ==> s.queue == [])
  }

  /** In none of n turns does another goroutine enqueue a row. */
  ghost predicate NothingComes(schedule: nat -> Turn, from: nat, n: nat) {
    forall k :: from <= k < from + n ==> MysqlWriter.NothingEnqueued(schedule(k).others)
  }

  lemma {:induction false} OthersAreHarmless(s: State, es: seq<Event>)
    requires Inv(s) && Closing(s) && MysqlWriter.NothingEnqueued(es)
    ensures var t := OtherSteps(s, es);
      Inv(t) && Closing(t) && t.phase == s.phase && t.accepted == s.accepted
      && MysqlWriter.Work(t) <= MysqlWriter.Work(s)
    decreases |es|
  {
    if es != [] {
      var e, before := es[|es| - 1], OtherSteps(s, es[..|es| - 1]);
      OthersAreHarmless(s, es[..|es| - 1]);
      if !OfWriter(e) && Enabled(before, e) {
        StepKeepsInv(before, e);
        MysqlWriter.StepIsWork(before, e);
        MysqlWriter.StepKeepsAccepted(before, e);
      }
    }
  }

  lemma ClosingStep(s: State, e: Event)
    requires Inv(s) && Closing(s) && Enabled(s, e) && OfWriter(e)
    ensures var t := Step(s, e);
      Inv(t) && Closing(t) && t.accepted == s.accepted && MysqlWriter.Work(t) < MysqlWriter.Work(s)
  {
    StepKeepsInv(s, e);
    MysqlWriter.StepIsWork(s, e);
    MysqlWriter.StepKeepsAccepted(s, e);
  }

  lemma ClosingTurn(s: State, t: Turn)
    requires Inv(s) && Closing(s) && MysqlWriter.NothingEnqueued(t.others)
    ensures var u := TurnStep(s, t);
      && Inv(u) && Closing(u) && u.accepted == s.accepted
      && (u.phase == Exited || u.phase.Panicked? || MysqlWriter.Work(u) < MysqlWriter.Work(s))
  {
    OthersAreHarmless(s, t.others);
    var ready := OtherSteps(s, t.others);
    if ready.phase.Writing? {
      ClosingStep(ready, Attempt(Answer(t.outcome, ready.batch)));
    } else if ready.phase == Draining {
      ClosingStep(ready, if ready.queue != [] then TakeRow else SeeEmpty);
    }
  }

  /** What holds on the way: the invariant, and so much work is left or done with. */
  ghost predicate OnTheWay(s: State, t: State, n: nat) {
    && Inv(t) && Closing(t) && t.accepted == s.accepted
    && (t.phase == Exited || t.phase.Panicked? || MysqlWriter.Work(t) + n <= MysqlWriter.Work(s))
  }

  lemma OneTurnOn(s: State, t: State, n: nat, turn: Turn)
    requires OnTheWay(s, t, n) && MysqlWriter.NothingEnqueued(turn.others)
    ensures OnTheWay(s, TurnStep(t, turn), n + 1)
  {
    ClosingTurn(t, turn);
    OthersAreHarmless(t, turn.others);
  }

  lemma LastTurnOn(s: State, schedule: nat -> Turn, from: nat, t: State, n: nat) returns (u: State)
    requires NothingComes(schedule, from, n) && n > 0
    requires Ran(s, TurnStep, schedule, from, t, from + n)
    ensures Ran(s, TurnStep, schedule, from, u, from + (n - 1))
    ensures OnTheWay(s, u, n - 1) ==> OnTheWay(s, t, n)
  {
    var last := from + n - 1;
    u := LastTurn(s, TurnStep, schedule, from, t, last + 1);
    assert MysqlWriter.NothingEnqueued(schedule(last).others);
    if OnTheWay(s, u, n - 1) {
      OneTurnOn(s, u, n - 1, schedule(last));
    }
  }

  lemma {:induction false} ClosingGoesOn(s: State, schedule: nat -> Turn, from: nat, t: State, n: nat)
    requires OnTheWay(s, s, 0) && NothingComes(schedule, from, n)
    requires Ran(s, TurnStep, schedule, from, t, from + n)
    ensures OnTheWay(s, t, n)
    decreases n
  {
    if n == 0 {
      NoTurnLeft(s, TurnStep, schedule, from, t);
    } else {
      var u := LastTurnOn(s, schedule, from, t, n);
      ClosingGoesOn(s, schedule, from, u, n - 1);
    }
  }

  /** Once Close has been seen and nothing more is enqueued, the writer is through after so many
      turns as there is work left, however they fall: it has returned with every accepted row
      flushed, unless it has panicked. */
  lemma ClosingEnds(s: State, schedule: nat -> Turn, from: nat, t: State, n: nat)
    requires Inv(s) && Closing(s) && NothingComes(schedule, from, n) && n > MysqlWriter.Work(s)
    requires Ran(s, TurnStep, schedule, from, t, from + n)
    ensures t.phase.Panicked? || (t.phase == Exited && Flatten(Rows(t.flushes)) == s.accepted)
  {
    ClosingGoesOn(s, schedule, from, t, n);
    assert Flatten(Rows(t.flushes)) + [] + [] == Flatten(Rows(t.flushes));
  }

  // ---------------------------------------------------------------- how long a row waits

  /** How many rows have left the queue. */
  function Out(s: State): int {
    |s.accepted| - |s.queue|
  }

  /** How many rows have been flushed. */
  function Done(s: State): nat {
    |Flatten(Rows(s.flushes))|
  }

  /** How often in turns a..b `select` picks the case that takes a row. */
  ghost function RowChoices(past: seq<State>, schedule: nat -> Turn, a: nat, b: nat): nat
    requires b < |past|
    decreases b
  {
    if b <= a then 0
    else
      RowChoices(past, schedule, a, b - 1)
      + if past[b - 1].phase == Selecting && schedule(b - 1).choice == PickRow then 1 else 0
  }

  /** Row m has been flushed, or the writer has panicked. */
  ghost predicate IsThrough(s: State, m: nat) {
    s.phase.Panicked? || m < Done(s)
  }

  /** Row m is on its way to the database, and at least n attempts have failed. */
  ghost predicate IsUnderway(s: State, m: nat, n: nat) {
    s.phase.Writing? && n <= s.phase.attempt && m < Out(s)
  }

  lemma OtherStepOnlyEnqueues(s: State, e: Event)
    requires Enabled(s, e) && !OfWriter(e)
    ensures var t := Step(s, e);
      && t.cfg == s.cfg && t.phase == s.phase && t.batch == s.batch && t.flushes == s.flushes
      && s.accepted <= t.accepted && Out(t) == Out(s)
  {
  }

  lemma {:induction false} OthersOnlyEnqueue(s: State, es: seq<Event>)
    ensures var t := OtherSteps(s, es);
      && t.cfg == s.cfg && t.phase == s.phase && t.batch == s.batch && t.flushes == s.flushes
      && s.accepted <= t.accepted && Out(t) == Out(s)
    decreases |es|
  {
    if es != [] {
      var e, before := es[|es| - 1], OtherSteps(s, es[..|es| - 1]);
      OthersOnlyEnqueue(s, es[..|es| - 1]);
      if !OfWriter(e) && Enabled(before, e) {
        OtherStepOnlyEnqueues(before, e);
      }
    }
  }

  lemma FlushedThenBatch(s: State)
    requires Conserved(s)
    ensures Done(s) + |s.batch| == Out(s)
    ensures forall i :: 0 <= i < Done(s) ==> Flatten(Rows(s.flushes))[i] == s.accepted[i]
  {
  }

  /** The step the writer takes in its turn, if any. */
  lemma ActIsStep(s: State, t: Turn)
    ensures Act(s, t) == s || exists e :: OfWriter(e) && Enabled(s, e) && Act(s, t) == Step(s, e)
  {
    match s.phase
    case Selecting =>
      assert OfWriter(SeeStop) && OfWriter(TakeRow) && OfWriter(Tick);
    case Draining =>
      var e := if s.queue != [] then TakeRow else SeeEmpty;
      assert OfWriter(e) && Enabled(s, e) && Act(s, t) == Step(s, e);
    case Writing(_, _, _) =>
      var e := Attempt(Answer(t.outcome, s.batch));
      assert OfWriter(e) && Enabled(s, e) && Act(s, t) == Step(s, e);
    case _ =>
  }

  lemma WriterStepMoves(s: State, e: Event)
    requires Enabled(s, e) && OfWriter(e)
    ensures var u := Step(s, e);
      && u.cfg == s.cfg && u.accepted == s.accepted && Out(u) == Out(s) + (if e.TakeRow? then 1 else 0)
      && (!s.phase.Writing? ==> u.flushes == s.flushes)
  {
  }

  lemma ActMoves(s: State, t: Turn)
    ensures var u := Act(s, t); u.cfg == s.cfg && u.accepted == s.accepted && Out(s) <= Out(u)
  {
    ActIsStep(s, t);
    if Act(s, t) != s {
      var e :| OfWriter(e) && Enabled(s, e) && Act(s, t) == Step(s, e);
      WriterStepMoves(s, e);
    }
  }

  lemma {:induction false} OthersKeepInv(s: State, es: seq<Event>)
    requires Inv(s)
    ensures Inv(OtherSteps(s, es))
    decreases |es|
  {
    if es != [] {
      var e, before := es[|es| - 1], OtherSteps(s, es[..|es| - 1]);
      OthersKeepInv(s, es[..|es| - 1]);
      if !OfWriter(e) && Enabled(before, e) {
        StepKeepsInv(before, e);
      }
    }
  }

  lemma TurnKeepsInv(s: State, t: Turn)
    requires Inv(s)
    ensures Inv(TurnStep(s, t))
  {
    var r := OtherSteps(s, t.others);
    OthersKeepInv(s, t.others);
    ActIsStep(r, t);
    if Act(r, t) != r {
      var e :| OfWriter(e) && Enabled(r, e) && Act(r, t) == Step(r, e);
      StepKeepsInv(r, e);
    }
  }

  lemma RowChoiceTakes(s: State, t: Turn)
    requires s.phase == Selecting && t.choice == PickRow
    ensures Out(s) < Out(Act(s, t)) || |s.accepted| <= Out(Act(s, t))
  {
    if s.queue != [] {
      WriterStepMoves(s, TakeRow);
    }
  }

  /** Where the rows are after an attempt to write the batch. */
  lemma AttemptMoves(s: State, outcome: Outcome)
    requires s.phase.Writing?
    ensures var u := StepAttempt(s, outcome);
      || u.phase.Panicked?
      || (u.phase.Writing? && u.phase.attempt == s.phase.attempt + 1 && Done(u) == Done(s))
      || Done(u) == Done(s) + |s.batch|
    ensures Done(s) <= Done(StepAttempt(s, outcome))
  {
    FlushSnoc(s.flushes, M.Flush(s.batch, outcome == Committed, HitAfter(s, outcome)));
  }

  lemma ActFlushes(s: State, t: Turn)
    ensures Done(s) <= Done(Act(s, t))
  {
    if s.phase.Writing? {
      AttemptMoves(s, Answer(t.outcome, s.batch));
    } else if Act(s, t) != s {
      ActIsStep(s, t);
      var e :| OfWriter(e) && Enabled(s, e) && Act(s, t) == Step(s, e);
      WriterStepMoves(s, e);
    }
  }

  /** One turn of the writer: no row goes back, and if the case that takes a row is picked, one
      more has left the queue, or all have. */
  lemma TurnMoves(s: State, t: Turn)
    ensures var u := TurnStep(s, t);
      && u.cfg == s.cfg && s.accepted <= u.accepted && Out(s) <= Out(u)
      && (s.phase == Selecting && t.choice == PickRow ==> Out(s) < Out(u) || |s.accepted| <= Out(u))
  {
    OthersOnlyEnqueue(s, t.others);
    ActMoves(OtherSteps(s, t.others), t);
    if s.phase == Selecting && t.choice == PickRow {
      RowChoiceTakes(OtherSteps(s, t.others), t);
    }
  }

  /** What is through stays through; what is under way is through or has failed once more. */
  lemma TurnWrites(s: State, t: Turn, m: nat, n: nat)
    requires Conserved(s) && (IsThrough(s, m) || IsUnderway(s, m, n))
    ensures var u := TurnStep(s, t); IsThrough(u, m) || IsUnderway(u, m, n + 1)
  {
    var r := OtherSteps(s, t.others);
    OthersOnlyEnqueue(s, t.others);
    ActFlushes(r, t);
    if r.phase.Writing? {
      AttemptMoves(r, Answer(t.outcome, r.batch));
      FlushedThenBatch(s);
    }
  }

  lemma TickStartsWriting(s: State, t: Turn, m: nat)
    requires Conserved(s) && s.phase == Selecting && t.choice == PickTick && m < Out(s)
    ensures var u := TurnStep(s, t); IsThrough(u, m) || IsUnderway(u, m, 0)
  {
    OthersOnlyEnqueue(s, t.others);
    FlushedThenBatch(s);
  }

  /** From s to t, in a number of turns of which so many picked the row case. */
  ghost predicate HasMoved(s: State, t: State, choices: nat) {
    && t.cfg == s.cfg && s.accepted <= t.accepted
    && (Out(s) + choices <= Out(t) || |s.accepted| <= Out(t))
  }

  lemma TurnsKeepInv(past: seq<State>, schedule: nat -> Turn, from: nat, k: nat, until: nat)
    requires from <= k <= until && IsPast(past, TurnStep, schedule, from, until) && Inv(past[from])
    ensures Inv(past[k])
  {
    forall s, t | Inv(s)
      ensures Inv(TurnStep(s, t))
    {
      TurnKeepsInv(s, t);
    }
    TurnsKeep(past, TurnStep, schedule, from, k, until, Inv);
  }

  lemma OneTurnMoves(past: seq<State>, schedule: nat -> Turn, from: nat, k: nat, until: nat, s: State, choices: nat)
    requires from <= k < until && IsPast(past, TurnStep, schedule, from, until)
    requires HasMoved(s, past[k], choices)
    ensures HasMoved(s, past[k + 1],
                     choices + if past[k].phase == Selecting && schedule(k).choice == PickRow then 1 else 0)
  {
    TurnMoves(past[k], schedule(k));
    assert Follows(past, TurnStep, schedule, k);
  }

  lemma {:induction false} RowsAreTaken(past: seq<State>, schedule: nat -> Turn, from: nat, k: nat, until: nat)
    requires from <= k <= until && IsPast(past, TurnStep, schedule, from, until)
    ensures HasMoved(past[from], past[k], RowChoices(past, schedule, from, k))
    decreases k
  {
    if from < k {
      RowsAreTaken(past, schedule, from, k - 1, until);
      OneTurnMoves(past, schedule, from, k - 1, until, past[from], RowChoices(past, schedule, from, k - 1));
    }
  }

  lemma OneTurnWrites(past: seq<State>, schedule: nat -> Turn, from: nat, k: nat, until: nat, m: nat, n: nat)
    requires from <= k < until && IsPast(past, TurnStep, schedule, from, until) && Inv(past[from])
    requires (IsThrough(past[k], m) || IsUnderway(past[k], m, n))
    ensures IsThrough(past[k + 1], m) || IsUnderway(past[k + 1], m, n + 1)
  {
    TurnsKeepInv(past, schedule, from, k, until);
    TurnWrites(past[k], schedule(k), m, n);
    assert Follows(past, TurnStep, schedule, k);
  }

  lemma {:induction false} WritingGoesOn(past: seq<State>, schedule: nat -> Turn, from: nat, k: nat, j: nat,
                                         until: nat, m: nat)
    requires from <= k <= j <= until && IsPast(past, TurnStep, schedule, from, until) && Inv(past[from])
    requires IsThrough(past[k], m) || IsUnderway(past[k], m, 0)
    ensures IsThrough(past[j], m) || IsUnderway(past[j], m, j - k)
    decreases j
  {
    if k < j {
      var i := j - 1;
      WritingGoesOn(past, schedule, from, k, i, until, m);
      OneTurnWrites(past, schedule, from, i, until, m, i - k);
    }
  }

  /** Row m has been flushed, and it is `row`. */
  ghost predicate IsFlushed(s: State, m: nat, row: Row) {
    m < Done(s) && Flatten(Rows(s.flushes))[m] == row
  }

  lemma EnoughAttempts(s: State, m: nat, n: nat)
    requires Inv(s) && n > s.cfg.maxRetries && (IsThrough(s, m) || IsUnderway(s, m, n))
    ensures s.phase.Panicked? || (m < |s.accepted| && IsFlushed(s, m, s.accepted[m]))
  {
    FlushedThenBatch(s);
  }

  /** By turn k the row case has been picked often enough to take row m, which was accepted before
      turn `from`; then comes a tick, and MaxRetries + 1 turns after it. */
  ghost predicate HasWaited(past: seq<State>, schedule: nat -> Turn, from: nat, k: nat, until: nat, m: nat)
    requires from < |past|
  {
    && from <= k && k + past[from].cfg.maxRetries + 2 <= until < |past|
    && m < |past[from].accepted| && m < Out(past[from]) + RowChoices(past, schedule, from, k)
    && past[k].phase == Selecting && schedule(k).choice == PickTick
  }

  lemma TickWrites(past: seq<State>, schedule: nat -> Turn, from: nat, k: nat, until: nat, m: nat)
    requires from <= until && IsPast(past, TurnStep, schedule, from, until) && Inv(past[from])
    requires HasWaited(past, schedule, from, k, until, m)
    ensures IsThrough(past[k + 1], m) || IsUnderway(past[k + 1], m, 0)
  {
    RowsAreTaken(past, schedule, from, k, until);
    TurnsKeepInv(past, schedule, from, k, until);
    TickStartsWriting(past[k], schedule(k), m);
    assert Follows(past, TurnStep, schedule, k);
  }

  /** A row does not wait for its batch to fill up. Once `select` has picked the row case as often
      as there are rows in front of row m and once more, and then a tick, row m has been flushed
      MaxRetries + 1 turns later, unless the writer has panicked. */
  lemma RowsAreFlushedOnTime(past: seq<State>, schedule: nat -> Turn, from: nat, k: nat, until: nat, m: nat)
    requires from <= until && IsPast(past, TurnStep, schedule, from, until) && Inv(past[from])
    requires HasWaited(past, schedule, from, k, until, m)
    ensures past[until].phase.Panicked? || IsFlushed(past[until], m, past[from].accepted[m])
  {
    TickWrites(past, schedule, from, k, until, m);
    WritingGoesOn(past, schedule, from, k + 1, until, until, m);
    RowsAreTaken(past, schedule, from, until, until);
    TurnsKeepInv(past, schedule, from, until, until);
    EnoughAttempts(past[until], m, until - k - 1);
  }

  /** The turns lead from s to t, and every row that has waited is flushed. */
  ghost predicate RanOnTime(s: State, schedule: nat -> Turn, from: nat, t: State, until: nat) {
    && from <= until
    && exists past :: IsPast(past, TurnStep, schedule, from, until) && past[from] == s && past[until] == t
         && forall k: nat, m: nat :: HasWaited(past, schedule, from, k, until, m) ==>
              t.phase.Panicked? || IsFlushed(t, m, s.accepted[m])
  }

  lemma EveryRunIsOnTime(s: State, schedule: nat -> Turn, from: nat, t: State, until: nat)
    requires Inv(s) && Ran(s, TurnStep, schedule, from, t, until)
    ensures RanOnTime(s, schedule, from, t, until)
  {
    var past :| IsPast(past, TurnStep, schedule, from, until) && past[from] == s && past[until] == t;
    forall k: nat, m: nat | HasWaited(past, schedule, from, k, until, m)
      ensures t.phase.Panicked? || IsFlushed(t, m, s.accepted[m])
    {
      RowsAreFlushedOnTime(past, schedule, from, k, until, m);
    }
  }

  class RecordWriter {
    const cfg: Config
    const name: string
    const cols: seq<string>
    const parts: Statement.Parts
    const schedule: nat -> Turn
    var tick: nat

    var ch: seq<Row>
    var stopped: bool
    var batch: seq<Row>
    var table: Table
    var writeBatchSize: nat
    var sendFailed: nat
    var tally: Tally

    ghost const table0: Table
    ghost var events: seq<Event>
    ghost var phase: Phase
    ghost var accepted: seq<Row>
    ghost var flushes: seq<M.Flush>
    ghost var lostAcks: nat

    ghost function View(): State
      reads this
    {
      State(cfg, table0, ch, batch, phase, stopped, table, accepted, flushes, writeBatchSize, sendFailed,
            lostAcks, tally)
    }

    /** Rows may have joined the queue since it held `queue`, but none has left it. */
    ghost predicate Growing(queue: seq<Row>, all: seq<Row>)
      reads this`accepted, this`ch
    {
      queue <= ch && all <= accepted && |accepted| - |all| == |ch| - |queue|
    }

    ghost predicate Valid()
      reads this
    {
      cfg.Valid() && IsRun(Init(cfg, table0), events, View())
    }

    /** The statement has been prepared for the columns of the table. */
    ghost predicate Prepared() {
      && |cols| == cfg.width && cfg.width >= KEY_COLUMNS
      && Statement.IsPrepared(parts, name, cols)
      && Statement.WellNamed(name, cols) && Statement.Distinct(cols)
    }

    constructor (cfg: Config, name: string, cols: seq<string>, schedule: nat -> Turn, table: Table)
      requires cfg.Valid() && |cols| == cfg.width
      requires Statement.WellNamed(name, cols) && Statement.Distinct(cols)
      ensures Valid() && Prepared() && events == [] && tick == 0
      ensures this.cfg == cfg && this.name == name && this.cols == cols && this.schedule == schedule
      ensures View() == Init(cfg, table)
    {
      var parts := Statement.Prepare(name, cols);
      this.cfg, this.name, this.cols, this.parts, this.schedule, tick := cfg, name, cols, parts, schedule, 0;
      ch, stopped, batch, this.table := [], false, [], table;
      writeBatchSize, sendFailed, tally := 0, 0, Tally(0, 0, 0, 0, 0, 0, 0, 0, 0);
      table0, events, phase, accepted, flushes, lostAcks := table, [], Selecting, [], [], 0;
    }

    /** Appends a step the fields have just taken to the history. */
    ghost method Record(e: Event, before: State)
      requires cfg.Valid() && IsRun(Init(cfg, table0), events, before)
      requires Enabled(before, e) && View() == Step(before, e)
      modifies this`events
      ensures Valid() && events == old(events) + [e]
    {
      MysqlWriter.RunOfOne(before, e);
      MysqlWriter.RunsJoin(Init(cfg, table0), events, before, [e], View());
      events := events + [e];
    }

    ghost method KnowInvariant()
      requires Valid()
      ensures Inv(View())
    {
      InitHasInv(cfg, table0);
      EveryRunKeepsInv(Init(cfg, table0), events, View());
    }

    ghost method KnowRoom()
      requires Valid()
      ensures |ch| <= cfg.queueSize
    {
      KnowInvariant();
    }

    // -------------------------------------------------------------- the other goroutines

    /** Non-blocking: false if the queue is full. */
    method Enqueue(row: Row) returns (ok: bool)
      requires Valid() && tally.converting > 0 && |row| == cfg.width
      modifies this`ch, this`tally, this`accepted, this`events
      ensures Valid() && old(events) <= events
      ensures View() == StepEnqueue(old(View()), row)
      ensures ok == (|old(ch)| < cfg.queueSize)
    {
      ghost var before := View();
      ok := |ch| < cfg.queueSize;
      tally := tally.(converting := tally.converting - 1);
      if ok {
        ch := ch + [row];
        accepted := accepted + [row];
        tally := tally.(queued := tally.queued + 1);
      } else {
        tally := tally.(rejected := tally.rejected + 1);
      }
      Record(M.Enqueue(row), before);
    }

    /** A step of Update or Close that only counts or signals. */
    method Count(e: Event)
      requires Valid() && Enabled(View(), e) && !e.Enqueue? && !OfWriter(e)
      modifies this`stopped, this`tally, this`events
      ensures Valid() && events == old(events) + [e]
      ensures View() == Step(old(View()), e)
    {
      ghost var before := View();
      match e {
        case Receive(isRequest) =>
          var k := if isRequest then 1 else 0;
          tally := tally.(receivedLogs := tally.receivedLogs + 1, receivedReq := tally.receivedReq + k,
                          converting := tally.converting + k);
        case ConvertFails => tally := tally.(converting := tally.converting - 1, failing := tally.failing + 1);
        case CountFailed => tally := tally.(failing := tally.failing - 1, convertFailed := tally.convertFailed + 1);
        case CountSent => tally := tally.(queued := tally.queued - 1, sentToMysql := tally.sentToMysql + 1);
        case CountFull => tally := tally.(rejected := tally.rejected - 1, chnFull := tally.chnFull + 1);
        case CloseStop => stopped := true;
      }
      Record(e, before);
    }

    /** Close: the writer is told to stop; it drains what is there and returns. */
    method Close()
      requires Valid()
      modifies this`stopped, this`tally, this`events
      ensures Valid() && stopped && tally == old(tally) && events == old(events) + [CloseStop]
    {
      Count(CloseStop);
    }

    ghost function Taken(): Intake
      reads this`ch, this`accepted, this`tally
    {
      Intake(ch, accepted, tally)
    }

    /** The loop of Update while no other goroutine moves. */
    method Update(entries: seq<Entry<Row>>)
      requires Valid() && forall i :: 0 <= i < |entries| ==> Fits(entries[i], cfg.width)
      modifies this`ch, this`tally, this`accepted, this`stopped, this`events
      ensures Valid() && old(events) <= events
      ensures Handled(old(Taken()), Taken(), entries, cfg.queueSize)
    {
      KnowRoom();
      ghost var was := Taken();
      HandledNone(was, cfg.queueSize);
      for i := 0 to |entries|
        invariant Valid() && old(events) <= events
        invariant Handled(was, Taken(), entries[..i], cfg.queueSize)
      {
        ghost var before := Taken();
        UpdateOne(entries[i]);
        HandledOn(was, before, Taken(), entries, i, cfg.queueSize);
      }
      assert entries[..|entries|] == entries;
    }

    /** A request that ToRow cannot convert is counted. */
    method CountFailure()
      requires Valid() && tally.converting > 0
      modifies this`tally, this`stopped, this`events
      ensures Valid() && old(events) <= events
      ensures tally == old(tally).(converting := old(tally).converting - 1,
                                   convertFailed := old(tally).convertFailed + 1)
    {
      Count(ConvertFails);
      Count(CountFailed);
    }

    /** One round of the loop of Update. */
    method UpdateOne(entry: Entry<Row>)
      requires Valid() && Fits(entry, cfg.width)
      modifies this`ch, this`tally, this`accepted, this`stopped, this`events
      ensures Valid() && old(events) <= events
      ensures Handled(old(Taken()), Taken(), [entry], cfg.queueSize)
    {
      Count(Receive(entry.isRequest));
      if entry.isRequest {
        match entry.made
        case None => CountFailure();
        case Some(row) => EnqueueAndCount(row);
      }
      HandleOne(old(Taken()).queue, entry, cfg.queueSize);
    }

    /** The row of a converted entry is queued or dropped, and counted. */
    method EnqueueAndCount(row: Row)
      requires Valid() && tally.converting > 0 && |row| == cfg.width
      modifies this`ch, this`tally, this`accepted, this`stopped, this`events
      ensures Valid() && old(events) <= events
      ensures var fits := |old(ch)| < cfg.queueSize;
        && ch == old(ch) + (if fits then [row] else [])
        && accepted == old(accepted) + (if fits then [row] else [])
        && tally == old(tally).(converting := old(tally).converting - 1,
                                sentToMysql := old(tally).sentToMysql + (if fits then 1 else 0),
                                chnFull := old(tally).chnFull + (if fits then 0 else 1))
    {
      var ok := Enqueue(row);
      if ok {
        Count(CountSent);
      } else {
        Count(CountFull);
      }
    }

    /** The writer goroutine is about to take a step: the other goroutines run first. */
    method Yield() returns (t: Turn)
      requires Valid()
      modifies this`tick, this`ch, this`tally, this`accepted, this`stopped, this`events
      ensures Valid() && old(events) <= events && Growing(old(ch), old(accepted))
      ensures t == schedule(old(tick)) && tick == old(tick) + 1
      ensures View() == OtherSteps(old(View()), t.others)
    {
      t := schedule(tick);
      for i := 0 to |t.others|
        invariant Valid() && old(events) <= events && Growing(old(ch), old(accepted))
        invariant tick == old(tick)
        invariant View() == OtherSteps(old(View()), t.others[..i])
      {
        assert t.others[..i + 1][..i] == t.others[..i];
        RunOther(t.others[i]);
      }
      assert t.others[..|t.others|] == t.others;
      tick := tick + 1;
    }

    /** One step of another goroutine, if it can happen. */
    method RunOther(e: Event)
      requires Valid()
      modifies this`ch, this`tally, this`accepted, this`stopped, this`events
      ensures Valid() && old(events) <= events && Growing(old(ch), old(accepted))
      ensures View() == OtherStep(old(View()), e)
    {
      if e.Enqueue? {
        if tally.converting > 0 && |e.row| == cfg.width {
          var _ := Enqueue(e.row);
        }
      } else {
        var possible := match e
          case Receive(_) => true
          case ConvertFails => tally.converting > 0
          case CountFailed => tally.failing > 0
          case CountSent => tally.queued > 0
          case CountFull => tally.rejected > 0
          case CloseStop => true
          case _ => false;
        if possible {
          Count(e);
        }
      }
    }

    // -------------------------------------------------------------- the writer goroutine

    /** One transaction: the statement for the batch and the cells of its rows go to the database,
        which upserts the rows it reads from them. It does so for exactly the rows of the batch,
        unless one of them cannot be stored or the transaction fails. */
    method WriteBatch(outcome: Outcome) returns (ok: bool)
      requires Prepared() && batch != [] && forall i :: 0 <= i < |batch| ==> |batch[i]| == cfg.width
      modifies this`table
      ensures ok == (Answer(outcome, batch) == Committed)
      ensures table == if Answer(outcome, batch) == FailedUnapplied then old(table) else Apply(old(table), batch)
    {
      var args := Statement.Arguments(batch);
      var stmt := Statement.BuildStmt(parts, |batch|);
      Statement.BatchArrives(table, parts, name, cols, batch);
      ok := false;
      match Statement.Execute(table, name, cols, stmt, args)
      case None =>
      case Some(upserted) =>
        if outcome != FailedUnapplied {
          table := upserted;
        }
        ok := outcome == Committed;
    }

    /** The database reports a failure in each of n turns. */
    ghost predicate AllFail(rows: seq<Row>, first: nat, n: nat) {
      forall k :: first <= k < first + n ==> Answer(schedule(k).outcome, rows) != Committed
    }

    /** The transaction is applied in one of n turns. */
    ghost predicate SomeApplied(rows: seq<Row>, first: nat, n: nat) {
      exists k :: first <= k < first + n && Answer(schedule(k).outcome, rows) != FailedUnapplied
    }

    /** Rows with full keys are in the table once if they were applied in one of n turns or more,
        otherwise not at all. */
    ghost predicate InTableOnce(now: Table, was: Table, rows: seq<Row>, first: nat, n: nat) {
      AllFullKeys(rows) ==> now == if SomeApplied(rows, first, n) then Apply(was, rows) else was
    }

    lemma OneMoreTurn(now: Table, was: Table, rows: seq<Row>, first: nat, n: nat)
      requires AllFail(rows, first, n) && InTableOnce(now, was, rows, first, n)
      ensures var answer := Answer(schedule(first + n).outcome, rows);
        && (answer != Committed ==> AllFail(rows, first, n + 1))
        && InTableOnce(if answer == FailedUnapplied then now else Apply(now, rows), was, rows, first, n + 1)
    {
      SendingTwiceIsOnceIff(was, rows);
    }

    /** The writer is done with the rows, or has them still in its batch because of a panic. */
    ghost predicate HasFlushed(was: seq<M.Flush>, rows: seq<Row>, panicked: bool)
      reads this`batch, this`flushes
    {
      if panicked then batch == rows && flushes == was
      else batch == [] && |flushes| == |was| + 1 && was <= flushes && flushes[|was|].rows == rows
    }

    /** What WriteBatchWithRetry does in so many attempts, from a state where the batch is `rows`. */
    ghost predicate Retried(was: State, rows: seq<Row>, first: nat, attempts: nat, panicked: bool)
      requires attempts >= 1
      reads this
    {
      var acked := Answer(schedule(first + attempts - 1).outcome, rows) == Committed;
      && attempts <= cfg.maxRetries + 1 && attempts <= |RETRY_BACKOFF_MS| + 1
      && tick == first + attempts && AllFail(rows, first, attempts - 1)
      && (panicked <==> !acked && attempts == |RETRY_BACKOFF_MS| + 1 <= cfg.maxRetries)
      && (!acked && !panicked ==> attempts == cfg.maxRetries + 1)
      && writeBatchSize == was.writeBatchSize + (if acked then |rows| else 0)
      && sendFailed == was.sendFailed + (if acked || panicked then 0 else 1)
      && HasFlushed(was.flushes, rows, panicked)
      && InTableOnce(table, was.table, rows, first, attempts)
    }

    /** So many attempts have failed, and there is to be another one. */
    ghost predicate Retrying(was: State, rows: seq<Row>, first: nat, attempts: nat)
      reads this
    {
      && phase.Writing? && phase.attempt == attempts && was.phase.Writing? && phase.resume == was.phase.resume
      && batch == rows && attempts <= cfg.maxRetries && attempts <= |RETRY_BACKOFF_MS| + 1
      && writeBatchSize == was.writeBatchSize && sendFailed == was.sendFailed && flushes == was.flushes
      && tick == first + attempts && AllFail(rows, first, attempts)
      && InTableOnce(table, was.table, rows, first, attempts)
    }

    /** Writes the batch, retrying after 200, 400 and 800 ms, until the database reports success or
        there have been MaxRetries + 1 attempts; the fifth attempt is a panic. Other goroutines
        run before every attempt. Without a panic the batch is counted as written or as given up,
        and forgotten; with a panic it is left where it is. If its rows have full keys it is in
        the table once, however often it was applied, and not at all if it never was. */
    method WriteBatchWithRetry() returns (panicked: bool, ghost attempts: nat, slept: nat)
      requires Valid() && Prepared() && phase.Writing? && phase.attempt == 0
      modifies this
      ensures Valid() && old(events) <= events && Growing(old(ch), old(accepted))
      ensures if panicked then AboutToPanic() else phase == Resumed(old(phase).resume)
      ensures attempts >= 1 && Retried(old(View()), old(batch), old(tick), attempts, panicked)
      ensures slept == [0, 200, 600, 1400][attempts - 1]
      ensures Ran(old(View()), TurnStep, schedule, old(tick), View(), tick)
    {
      panicked, attempts, slept := false, 0, 0;
      ghost var rows, was := batch, View();
      var attempt := 0;
      NoTurn(was, TurnStep, schedule, tick);
      while attempt <= cfg.maxRetries
        invariant Valid() && old(events) <= events && Growing(old(ch), old(accepted))
        invariant attempt == attempts && Retrying(was, rows, old(tick), attempts)
        invariant slept == if attempt < 2 then 0 else if attempt == 2 then 200 else if attempt == 3 then 600 else 1400
        invariant Ran(was, TurnStep, schedule, old(tick), View(), tick)
        decreases cfg.maxRetries - attempt
      {
        if attempt > 0 {
          if attempt - 1 >= |RETRY_BACKOFF_MS| {
            panicked := true;
            return;
          }
          slept := slept + RETRY_BACKOFF_MS[attempt - 1];
        }
        attempts := attempts + 1;
        var over := TryAgain(attempt, was, rows, old(tick));
        if over {
          return;
        }
        attempt := attempt + 1;
      }
    }

    /** One round more of the retry loop. */
    method TryAgain(attempt: nat, ghost was: State, ghost rows: seq<Row>, ghost first: nat) returns (over: bool)
      requires Valid() && Prepared() && attempt <= |RETRY_BACKOFF_MS| && Retrying(was, rows, first, attempt)
      requires Ran(was, TurnStep, schedule, first, View(), tick)
      modifies this
      ensures Valid() && old(events) <= events && Growing(old(ch), old(accepted))
      ensures if over
              then phase == Resumed(was.phase.resume) && batch == [] && Retried(was, rows, first, attempt + 1, false)
              else Retrying(was, rows, first, attempt + 1)
      ensures Ran(was, TurnStep, schedule, first, View(), tick)
    {
      OneMoreTurn(table, was.table, rows, first, attempt);
      var ok := Round(attempt);
      over := ok || attempt == cfg.maxRetries;
      TurnsJoin(was, TurnStep, schedule, first, old(View()), old(tick), View(), tick);
    }

    /** One round of the retry loop: other goroutines run, then one attempt is made. */
    method Round(attempt: nat) returns (ok: bool)
      requires Valid() && Prepared() && phase.Writing? && phase.attempt == attempt <= |RETRY_BACKOFF_MS|
      requires attempt <= cfg.maxRetries
      modifies this
      ensures Valid() && old(events) <= events && Growing(old(ch), old(accepted))
      ensures tick == old(tick) + 1 && Ran(old(View()), TurnStep, schedule, old(tick), View(), tick)
      ensures var answer := Answer(schedule(old(tick)).outcome, old(batch));
        && ok == (answer == Committed)
        && table == (if answer == FailedUnapplied then old(table) else Apply(old(table), old(batch)))
      ensures Concluded(old(View()), attempt, ok)
    {
      var t := Yield();
      ok := Try(attempt, t.outcome);
      AttemptTurn(old(View()), schedule, old(tick), View());
    }

    /** An attempt has been counted, and the writer is done with the batch or keeps it for another. */
    ghost predicate Concluded(was: State, attempt: nat, ok: bool)
      requires was.phase.Writing?
      reads this`batch, this`flushes, this`phase, this`writeBatchSize, this`sendFailed
    {
      && writeBatchSize == was.writeBatchSize + (if ok then |was.batch| else 0)
      && sendFailed == was.sendFailed + (if !ok && attempt == cfg.maxRetries then 1 else 0)
      && if ok || attempt == cfg.maxRetries
         then phase == Resumed(was.phase.resume) && HasFlushed(was.flushes, was.batch, false)
         else phase.Writing? && phase.attempt == attempt + 1 && phase.resume == was.phase.resume
              && batch == was.batch && flushes == was.flushes
    }

    /** One attempt, and what follows from its answer: counting and forgetting the batch. */
    method Try(attempt: nat, outcome: Outcome) returns (ok: bool)
      requires Valid() && Prepared() && phase.Writing? && phase.attempt == attempt <= |RETRY_BACKOFF_MS|
      requires attempt <= cfg.maxRetries
      modifies this`table, this`batch, this`phase, this`writeBatchSize, this`sendFailed, this`flushes,
               this`lostAcks, this`events
      ensures Valid() && old(events) <= events
      ensures View() == Step(old(View()), Attempt(Answer(outcome, old(batch))))
      ensures ok == (Answer(outcome, old(batch)) == Committed)
      ensures table == if Answer(outcome, old(batch)) == FailedUnapplied then old(table)
                       else Apply(old(table), old(batch))
      ensures Concluded(old(View()), attempt, ok)
    {
      ghost var before, answer := View(), Answer(outcome, batch);
      MysqlWriter.BatchIsAccepted(cfg, table0, events, View());
      ok := WriteAndCount(attempt, outcome);
      Record(Attempt(answer), before);
    }

    method WriteAndCount(attempt: nat, outcome: Outcome) returns (ok: bool)
      requires phase.Writing? && phase.attempt == attempt <= cfg.maxRetries && attempt <= |RETRY_BACKOFF_MS|
      requires Prepared() && batch != [] && forall i :: 0 <= i < |batch| ==> |batch[i]| == cfg.width
      modifies this`table, this`batch, this`phase, this`writeBatchSize, this`sendFailed, this`flushes,
               this`lostAcks
      ensures View() == StepAttempt(old(View()), Answer(outcome, old(batch)))
      ensures ok == (Answer(outcome, old(batch)) == Committed)
      ensures table == if Answer(outcome, old(batch)) == FailedUnapplied then old(table)
                       else Apply(old(table), old(batch))
      ensures Concluded(old(View()), attempt, ok)
    {
      ghost var before, answer := View(), Answer(outcome, batch);
      lostAcks := lostAcks + if answer == FailedApplied then 1 else 0;
      ok := WriteBatch(outcome);
      AttemptReturns(before, answer, table, lostAcks);
      Conclude(attempt, ok, HitAfter(before, answer));
    }

    /** Counts an attempt; the batch is kept for another one, or the writer is done with it. */
    method Conclude(attempt: nat, ok: bool, ghost hit: bool)
      requires phase.Writing? && phase.attempt == attempt <= cfg.maxRetries
      modifies this`batch, this`phase, this`writeBatchSize, this`sendFailed, this`flushes
      ensures Concluded(old(View()), attempt, ok)
      ensures var t, resume := old(View()), old(phase).resume;
        View() ==
          if ok then
            t.(writeBatchSize := t.writeBatchSize + |t.batch|, flushes := t.flushes + [M.Flush(t.batch, true, true)],
               batch := [], phase := Resumed(resume))
          else if attempt < cfg.maxRetries then t.(phase := Writing(attempt + 1, resume, hit))
          else
            t.(sendFailed := t.sendFailed + 1, flushes := t.flushes + [M.Flush(t.batch, false, hit)],
               batch := [], phase := Resumed(resume))
    {
      if ok {
        writeBatchSize := writeBatchSize + |batch|;
        Settle(true, true);
      } else if attempt < cfg.maxRetries {
        phase := Writing(attempt + 1, phase.resume, hit);
      } else {
        sendFailed := sendFailed + 1;
        Settle(false, hit);
      }
    }

    /** The writer is done with its batch. */
    method Settle(ghost acked: bool, ghost applied: bool)
      requires phase.Writing?
      modifies this`batch, this`phase, this`flushes
      ensures batch == [] && phase == Resumed(old(phase).resume)
      ensures flushes == old(flushes) + [M.Flush(old(batch), acked, applied)]
    {
      flushes := flushes + [M.Flush(batch, acked, applied)];
      batch := [];
      phase := Resumed(phase.resume);
    }

    ghost predicate AboutToPanic()
      reads this`phase
    {
      phase.Writing? && phase.attempt == |RETRY_BACKOFF_MS| + 1
    }

    /** flush: writes the batch if there is one. */
    method Flush() returns (panicked: bool)
      requires Valid() && Prepared() && phase.Writing? && phase.attempt == 0
      modifies this
      ensures Valid() && old(events) <= events && Growing(old(ch), old(accepted))
      ensures if panicked then AboutToPanic() else phase == Resumed(old(phase).resume)
      ensures HasFlushed(old(flushes), old(batch), panicked)
      ensures old(tick) < tick && Ran(old(View()), TurnStep, schedule, old(tick), View(), tick)
    {
      ghost var attempts;
      var slept;
      panicked, attempts, slept := WriteBatchWithRetry();
    }

    /** Takes the oldest row from the queue into the batch; full says that the batch is to be
        flushed. */
    method TakeRow() returns (full: bool)
      requires Valid() && (phase == Selecting || phase == Draining) && ch != []
      modifies this`ch, this`batch, this`phase, this`events
      ensures Valid() && old(events) <= events
      ensures batch == old(batch) + [old(ch)[0]] && ch == old(ch)[1..]
      ensures full == (|batch| >= cfg.batchSize)
      ensures View() == Step(old(View()), M.TakeRow)
    {
      ghost var before := View();
      batch := batch + [ch[0]];
      ch := ch[1..];
      full := |batch| >= cfg.batchSize;
      if full {
        phase := Writing(0, if phase == Selecting then ToSelect else ToDrain, false);
      }
      Record(M.TakeRow, before);
    }

    /** The writer notices that Close was called, that the queue is empty, or a tick. */
    ghost method Notice(e: Event, next: Phase)
      requires Valid() && Enabled(View(), e) && (e == SeeStop || e == SeeEmpty || e == Tick)
      requires next == Step(View(), e).phase
      modifies this`phase, this`events
      ensures Valid() && old(events) <= events && View() == Step(old(View()), e)
    {
      ghost var before := View();
      phase := next;
      Record(e, before);
    }

    /** What the other goroutines leave the writer when turn `tick` is due. */
    ghost function Ready(): State
      reads this
    {
      OtherSteps(View(), schedule(tick).others)
    }

    /** The oldest row of `queue` has gone from the queue into the batch. */
    ghost predicate HasTaken(was: seq<Row>, queue: seq<Row>)
      requires queue != []
      reads this`batch, this`ch
    {
      batch == was + [queue[0]] && ch == queue[1..]
    }

    ghost predicate IsLeft(was: seq<Row>, queue: seq<Row>)
      reads this`batch, this`ch
    {
      batch == was && ch == queue
    }

    /** The select of writeLoop: takes the ready case that was picked, if any. */
    method Select() returns (stop: bool, due: bool)
      requires Valid() && phase == Selecting
      modifies this
      ensures Valid() && old(events) <= events
      ensures phase == if due then Writing(0, ToSelect, false) else if stop then Draining else Selecting
      ensures var r, choice := old(Ready()), schedule(old(tick)).choice;
        && (stop <==> choice == PickStop && r.stopping)
        && due == ((choice == PickRow && r.queue != [] && |old(batch)| + 1 >= cfg.batchSize)
                   || (choice == PickTick && old(batch) != []))
        && if choice == PickRow && r.queue != [] then HasTaken(old(batch), r.queue) else IsLeft(old(batch), r.queue)
      ensures flushes == old(flushes)
      ensures tick == old(tick) + 1 && Ran(old(View()), TurnStep, schedule, old(tick), View(), tick)
    {
      var t := Yield();
      stop, due := false, false;
      if t.choice == PickStop && stopped {
        Notice(SeeStop, Draining);
        stop := true;
      } else if t.choice == PickRow && ch != [] {
        due := TakeRow();
      } else if t.choice == PickTick && batch != [] {
        Notice(Tick, Writing(0, ToSelect, false));
        due := true;
      }
      OneTurn(old(View()), TurnStep, schedule, old(tick));
    }

    /** One round of the outer loop of writeLoop; stop says that Close was seen. The row case takes
        the oldest row and flushes the batch exactly if that fills it; a tick flushes what there is. */
    method SelectOnce() returns (stop: bool, panicked: bool)
      requires Valid() && Prepared() && phase == Selecting
      modifies this
      ensures Valid() && old(events) <= events
      ensures if panicked then AboutToPanic() else phase == if stop then Draining else Selecting
      ensures var r, choice := old(Ready()), schedule(old(tick)).choice;
        && (stop <==> choice == PickStop && r.stopping)
        && if choice == PickRow && r.queue != [] then
             if |old(batch)| + 1 < cfg.batchSize
             then !panicked && HasTaken(old(batch), r.queue) && flushes == old(flushes)
             else HasFlushed(old(flushes), old(batch) + [r.queue[0]], panicked) && r.queue[1..] <= ch
           else if choice == PickTick && old(batch) != []
           then HasFlushed(old(flushes), old(batch), panicked) && r.queue <= ch
           else !panicked && IsLeft(old(batch), r.queue) && flushes == old(flushes)
      ensures old(tick) < tick && Ran(old(View()), TurnStep, schedule, old(tick), View(), tick)
    {
      var due;
      panicked := false;
      stop, due := Select();
      if due {
        panicked := FlushDue(old(View()), old(tick));
      }
    }

    /** A flush in the turns after the one that made it due. */
    method FlushDue(ghost s: State, ghost from: nat) returns (panicked: bool)
      requires Valid() && Prepared() && phase.Writing? && phase.attempt == 0
      requires from < tick && Ran(s, TurnStep, schedule, from, View(), tick)
      modifies this
      ensures Valid() && old(events) <= events && Growing(old(ch), old(accepted))
      ensures if panicked then AboutToPanic() else phase == Resumed(old(phase).resume)
      ensures HasFlushed(old(flushes), old(batch), panicked)
      ensures old(tick) < tick && Ran(s, TurnStep, schedule, from, View(), tick)
    {
      panicked := Flush();
      TurnsJoin(s, TurnStep, schedule, from, old(View()), old(tick), View(), tick);
    }

    /** The select of the drain loop: a row if there is one, otherwise the loop is done. */
    method Drain() returns (done: bool, due: bool)
      requires Valid() && phase == Draining
      modifies this
      ensures Valid() && old(events) <= events
      ensures phase == if due then Writing(0, if done then ToExit else ToDrain, false)
                       else if done then Exited else Draining
      ensures var r := old(Ready());
        && (done <==> r.queue == [])
        && (due <==> if done then old(batch) != [] else |old(batch)| + 1 >= cfg.batchSize)
        && if done then IsLeft(old(batch), []) else HasTaken(old(batch), r.queue)
      ensures flushes == old(flushes)
      ensures tick == old(tick) + 1 && Ran(old(View()), TurnStep, schedule, old(tick), View(), tick)
    {
      var t := Yield();
      done := ch == [];
      if done {
        due := batch != [];
        Notice(SeeEmpty, if batch == [] then Exited else Writing(0, ToExit, false));
      } else {
        due := TakeRow();
      }
      OneTurn(old(View()), TurnStep, schedule, old(tick));
    }

    /** One round of the drain loop; done says that the queue was empty and all is flushed. Until
        then the oldest row is taken, and the batch flushed exactly if that fills it. */
    method DrainOnce() returns (done: bool, panicked: bool)
      requires Valid() && Prepared() && phase == Draining
      modifies this
      ensures Valid() && old(events) <= events
      ensures if panicked then AboutToPanic() else phase == if done then Exited else Draining
      ensures var r := old(Ready());
        && (done <==> r.queue == [])
        && if done then
             if old(batch) == [] then !panicked && flushes == old(flushes)
             else HasFlushed(old(flushes), old(batch), panicked)
           else if |old(batch)| + 1 < cfg.batchSize
           then !panicked && HasTaken(old(batch), r.queue) && flushes == old(flushes)
           else HasFlushed(old(flushes), old(batch) + [r.queue[0]], panicked) && r.queue[1..] <= ch
      ensures old(tick) < tick && Ran(old(View()), TurnStep, schedule, old(tick), View(), tick)
    {
      var due;
      panicked := false;
      done, due := Drain();
      if due {
        panicked := FlushDue(old(View()), old(tick));
      }
    }

    /** The deferred recover of writeLoop: the panic is counted and ends the writer. */
    method Recover()
      requires Valid() && AboutToPanic()
      modifies this
      ensures Valid() && old(events) <= events && phase.Panicked? && sendFailed == old(sendFailed) + 1
      ensures tick == old(tick) + 1 && Ran(old(View()), TurnStep, schedule, old(tick), View(), tick)
    {
      var t := Yield();
      ghost var before := View();
      sendFailed := sendFailed + 1;
      phase := Panicked(phase.hit);
      Record(Attempt(Answer(t.outcome, batch)), before);
      OneTurn(old(View()), TurnStep, schedule, old(tick));
    }

    /** One round of writeLoop, with the recover if it panics. */
    method LoopOnce(draining: bool, ghost s: State, ghost from: nat) returns (drain: bool, over: bool)
      requires Valid() && Prepared() && phase == if draining then Draining else Selecting
      requires from <= tick && Ran(s, TurnStep, schedule, from, View(), tick)
      modifies this
      ensures Valid() && old(events) <= events
      ensures if over then phase == Exited || phase.Panicked? else phase == if drain then Draining else Selecting
      ensures old(tick) < tick && Ran(s, TurnStep, schedule, from, View(), tick)
    {
      var panicked := false;
      drain, over := true, false;
      if draining {
        over, panicked := DrainOnce();
      } else {
        drain, panicked := SelectOnce();
      }
      TurnsJoin(s, TurnStep, schedule, from, old(View()), old(tick), View(), tick);
      if panicked {
        over := true;
        ghost var mid := View();
        Recover();
        TurnsJoin(s, TurnStep, schedule, from, mid, tick - 1, View(), tick);
      }
    }

    /** writeLoop, for any number of turns. However the turns fall, the writer does in each what is
        due; rows leave in the order they came, in batches of 1 to BatchSize rows, and none is lost
        on the way. */
    method WriteLoop(turns: nat)
      requires Valid() && Prepared() && phase == Selecting
      modifies this
      ensures Valid() && old(events) <= events
      ensures Ran(old(View()), TurnStep, schedule, old(tick), View(), tick)
      ensures if phase == Selecting || phase == Draining then old(tick) + turns <= tick
              else phase == Exited || phase.Panicked?
      ensures Flatten(Rows(flushes)) + batch + ch == accepted
      ensures forall i :: 0 <= i < |flushes| ==> 1 <= |flushes[i].rows| <= cfg.batchSize
      ensures phase == Exited ==> batch == []
      ensures cfg.maxRetries <= 3 ==> !phase.Panicked?
      ensures RanOnTime(old(View()), schedule, old(tick), View(), tick)
    {
      KnowInvariant();
      ghost var was := View();
      var left, draining, over := turns, false, false;
      NoTurn(was, TurnStep, schedule, tick);
      while left > 0 && !over
        invariant Valid() && old(events) <= events
        invariant if over then phase == Exited || phase.Panicked? else phase == if draining then Draining else Selecting
        invariant old(tick) + turns <= tick + left
        invariant Ran(was, TurnStep, schedule, old(tick), View(), tick)
      {
        left := left - 1;
        draining, over := LoopOnce(draining, was, old(tick));
      }
      MysqlWriter.RowsAreConserved(cfg, table0, events, View());
      KnowInvariant();
      EveryRunIsOnTime(was, schedule, old(tick), View(), tick);
    }
  }
}
