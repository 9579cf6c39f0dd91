/** The MySQL writer as a state machine (reader_modules/mod_log_mysql/record_writer.go), with the
    goroutines that run Update (reader_modules/mod_log_mysql/mod_log_mysql.go) putting rows into its
    queue at any moment. One step per channel operation, per counter and per attempt to write a
    batch; `select` takes any case that is ready; an attempt may fail before the transaction is
    applied, fail after it was applied (the commit was lost on the way back), or succeed, but it
    always fails if the batch holds a row that the table cannot store. */
module WriterMachine {
  import opened Sequences
  import opened DetailTable

  /** `width` is the number of columns: the mapper builds only rows of that many cells. */
  datatype Config = Config(queueSize: nat, batchSize: nat, maxRetries: nat, width: nat) {
    predicate Valid() {
      queueSize >= 1 && batchSize >= 1 && maxRetries >= 1 && width >= KEY_COLUMNS
    }
  }

  const RETRY_BACKOFF_MS: seq<nat> := [200, 400, 800]

  /** Where the consumer goes when a flush is over. */
  datatype Resume = ToSelect | ToDrain | ToExit

  datatype Phase =
    | Selecting
    | Draining
    | Writing(attempt: nat, resume: Resume, hit: bool) // hit: an earlier attempt was applied
    | Exited
    | Panicked(hit: bool)

  datatype Outcome = Committed | FailedUnapplied | FailedApplied

  /** A batch the writer is done with: acknowledged or given up, applied to the table or not. */
  datatype Flush = Flush(rows: seq<Row>, acked: bool, applied: bool)

  /** The counters of the module, and how many Update goroutines are between two of them. */
  datatype Tally = Tally(
    receivedLogs: nat, receivedReq: nat, convertFailed: nat, sentToMysql: nat, chnFull: nat,
    converting: nat, failing: nat, queued: nat, rejected: nat)

  datatype State = State(
    cfg: Config,
    table0: Table,
    queue: seq<Row>,
    batch: seq<Row>,
    phase: Phase,
    stopping: bool,
    table: Table,
    accepted: seq<Row>,
    flushes: seq<Flush>,
    writeBatchSize: nat,
    sendFailed: nat,
    lostAcks: nat,   // attempts that were applied although they reported a failure
    tally: Tally)

  datatype Event =
    // an Update goroutine
    | Receive(isRequest: bool)
    | ConvertFails
    | CountFailed
    | Enqueue(row: Row)
    | CountSent
    | CountFull
    // Close
    | CloseStop
    // the writer goroutine
    | TakeRow
    | Tick
    | SeeStop
    | SeeEmpty
    | Attempt(outcome: Outcome)

  function Init(cfg: Config, table: Table): State {
    State(cfg, table, [], [], Selecting, false, table, [], [], 0, 0, 0, Tally(0, 0, 0, 0, 0, 0, 0, 0, 0))
  }

  function Resumed(resume: Resume): Phase {
    match resume case ToSelect => Selecting case ToDrain => Draining case ToExit => Exited
  }

  /** Which steps can happen in a state. */
  predicate Enabled(s: State, e: Event) {
    match e
    case Receive(_) => true
    case ConvertFails => s.tally.converting > 0
    case CountFailed => s.tally.failing > 0
    case Enqueue(row) => s.tally.converting > 0 && |row| == s.cfg.width
    case CountSent => s.tally.queued > 0
    case CountFull => s.tally.rejected > 0
    case CloseStop => true
    case TakeRow => (s.phase == Selecting || s.phase == Draining) && s.queue != []
    case Tick => s.phase == Selecting && s.batch != []
    case SeeStop => s.phase == Selecting && s.stopping
    case SeeEmpty => s.phase == Draining && s.queue == []
    case Attempt(outcome) => s.phase.Writing? && (outcome != FailedUnapplied ==> AllStorable(s.batch))
  }

  function StepReceive(s: State, isRequest: bool): State {
    var c := s.tally;
    s.(tally := c.(receivedLogs := c.receivedLogs + 1,
                   receivedReq := c.receivedReq + (if isRequest then 1 else 0),
                   converting := c.converting + (if isRequest then 1 else 0)))
  }

  /** The non-blocking send of Enqueue. */
  function StepEnqueue(s: State, row: Row): State
    requires s.tally.converting > 0
  {
    var c := s.tally.(converting := s.tally.converting - 1);
    if |s.queue| < s.cfg.queueSize then
      s.(queue := s.queue + [row], accepted := s.accepted + [row], tally := c.(queued := c.queued + 1))
    else s.(tally := c.(rejected := c.rejected + 1))
  }

  function StepTakeRow(s: State): State
    requires s.queue != [] && (s.phase == Selecting || s.phase == Draining)
  {
    var batch := s.batch + [s.queue[0]];
    var resume := if s.phase == Selecting then ToSelect else ToDrain;
    s.(queue := s.queue[1..], batch := batch,
       phase := if |batch| >= s.cfg.batchSize then Writing(0, resume, false) else s.phase)
  }

  /** One round of the loop of writeBatchWithRetry. Before attempt a > 0 it reads
      retryBackoffMs[a - 1], which is out of range from the fifth attempt on: a panic, which
      writeLoop recovers from by counting a failure and returning. */
  function StepAttempt(s: State, outcome: Outcome): State
    requires s.phase.Writing?
  {
    var Writing(attempt, resume, hit) := s.phase;
    if attempt > |RETRY_BACKOFF_MS| then s.(phase := Panicked(hit), sendFailed := s.sendFailed + 1)
    else
      var table := if outcome == FailedUnapplied then s.table else Apply(s.table, s.batch);
      var hit' := hit || outcome != FailedUnapplied;
      var t := s.(table := table, lostAcks := s.lostAcks + if outcome == FailedApplied then 1 else 0);
      if outcome == Committed then
        t.(writeBatchSize := s.writeBatchSize + |s.batch|, flushes := s.flushes + [Flush(s.batch, true, true)],
           batch := [], phase := Resumed(resume))
      else if attempt < s.cfg.maxRetries then t.(phase := Writing(attempt + 1, resume, hit'))
      else
        t.(sendFailed := s.sendFailed + 1, flushes := s.flushes + [Flush(s.batch, false, hit')],
           batch := [], phase := Resumed(resume))
  }

  function Step(s: State, e: Event): State
    requires Enabled(s, e)
  {
    match e
    case Receive(isRequest) => StepReceive(s, isRequest)
    case ConvertFails =>
      s.(tally := s.tally.(converting := s.tally.converting - 1, failing := s.tally.failing + 1))
    case CountFailed =>
      s.(tally := s.tally.(failing := s.tally.failing - 1, convertFailed := s.tally.convertFailed + 1))
    case Enqueue(row) => StepEnqueue(s, row)
    case CountSent =>
      s.(tally := s.tally.(queued := s.tally.queued - 1, sentToMysql := s.tally.sentToMysql + 1))
    case CountFull =>
      s.(tally := s.tally.(rejected := s.tally.rejected - 1, chnFull := s.tally.chnFull + 1))
    case CloseStop => s.(stopping := true)
    case TakeRow => StepTakeRow(s)
    case Tick => s.(phase := Writing(0, ToSelect, false))
    case SeeStop => s.(phase := Draining)
    case SeeEmpty => s.(phase := if s.batch == [] then Exited else Writing(0, ToExit, false))
    case Attempt(outcome) => StepAttempt(s, outcome)
  }

  /** A step of the writer goroutine, as opposed to Update and Close. */
  predicate OfWriter(e: Event) {
    e.TakeRow? || e.Tick? || e.SeeStop? || e.SeeEmpty? || e.Attempt?
  }

  /** A step of another goroutine than the writer's, if it can happen. */
  function OtherStep(s: State, e: Event): State {
    if !OfWriter(e) && Enabled(s, e) then Step(s, e) else s
  }

  function OtherSteps(s: State, es: seq<Event>): State
    decreases |es|
  {
    if es == [] then s else OtherStep(OtherSteps(s, es[..|es| - 1]), es[|es| - 1])
  }

  ghost predicate IsRun(s: State, events: seq<Event>, t: State)
    decreases |events|
  {
    if events == [] then s == t
    else Enabled(s, events[0]) && IsRun(Step(s, events[0]), events[1..], t)
  }

  // ---------------------------------------------------------------- invariants

  function Rows(flushes: seq<Flush>): seq<seq<Row>> {
    seq(|flushes|, i requires 0 <= i < |flushes| => flushes[i].rows)
  }

  /** The rows of the batches that reached the table, in order. */
  function AppliedRows(flushes: seq<Flush>): seq<Row>
    decreases |flushes|
  {
    if flushes == [] then []
    else
      var n := |flushes| - 1;
      AppliedRows(flushes[..n]) + if flushes[n].applied then flushes[n].rows else []
  }

  function AckedCount(flushes: seq<Flush>): nat
    decreases |flushes|
  {
    if flushes == [] then 0
    else
      var n := |flushes| - 1;
      AckedCount(flushes[..n]) + if flushes[n].acked then |flushes[n].rows| else 0
  }

  function GivenUp(flushes: seq<Flush>): nat
    decreases |flushes|
  {
    if flushes == [] then 0
    else
      var n := |flushes| - 1;
      GivenUp(flushes[..n]) + if flushes[n].acked then 0 else 1
  }

  /** First in, first out, and nothing vanishes: what was flushed, then the batch, then the queue. */
  ghost predicate Conserved(s: State) {
    Flatten(Rows(s.flushes)) + s.batch + s.queue == s.accepted
  }

  ghost predicate FlushesCounted(s: State) {
    && s.writeBatchSize == AckedCount(s.flushes)
    && s.sendFailed == GivenUp(s.flushes) + (if s.phase.Panicked? then 1 else 0)
  }

  ghost predicate RequestsCounted(s: State) {
    var c := s.tally;
    && c.receivedReq == c.convertFailed + c.sentToMysql + c.chnFull
                      + c.converting + c.failing + c.queued + c.rejected
    && c.receivedReq <= c.receivedLogs
    && |s.accepted| == c.sentToMysql + c.queued
  }

  ghost predicate Counted(s: State) {
    FlushesCounted(s) && RequestsCounted(s)
  }

  ghost predicate Sized(s: State) {
    && s.cfg.Valid()
    && |s.queue| <= s.cfg.queueSize
    && (forall i :: 0 <= i < |s.flushes| ==> 1 <= |s.flushes[i].rows| <= s.cfg.batchSize)
    && match s.phase
       case Selecting => |s.batch| < s.cfg.batchSize
       case Draining => |s.batch| < s.cfg.batchSize && s.stopping
       case Writing(attempt, resume, hit) =>
         && 1 <= |s.batch| <= s.cfg.batchSize
         && attempt <= s.cfg.maxRetries && attempt <= |RETRY_BACKOFF_MS| + 1
         && (resume != ToSelect ==> s.stopping)
         && (attempt == 0 ==> !hit)
       case Exited => s.batch == [] && s.stopping
       case Panicked(_) => 1 <= |s.batch| <= s.cfg.batchSize && s.cfg.maxRetries > |RETRY_BACKOFF_MS|
  }

  /** What of the current batch has reached the table. */
  function Pending(s: State): seq<Row> {
    match s.phase
    case Writing(_, _, hit) => if hit then s.batch else []
    case Panicked(hit) => if hit then s.batch else []
    case _ => []
  }

  /** The table holds the rows of the applied batches, upserted once each, in order: if the rows
      have full keys, or if no acknowledgement was lost. */
  ghost predicate Stored(s: State) {
    && (AllFullKeys(s.accepted) || s.lostAcks == 0 ==>
          s.table == Apply(s.table0, AppliedRows(s.flushes) + Pending(s)))
    && (s.phase.Writing? && s.phase.hit ==> s.lostAcks > 0)
  }

  ghost predicate Inv(s: State) {
    Conserved(s) && Counted(s) && Sized(s) && Stored(s)
  }

  lemma InitHasInv(cfg: Config, table: Table)
    requires cfg.Valid()
    ensures Inv(Init(cfg, table))
  {
    assert Rows([]) == [];
  }

  lemma EnqueueKeepsConserved(s: State, row: Row)
    requires Conserved(s) && s.tally.converting > 0
    ensures Conserved(StepEnqueue(s, row))
  {
    var front := Flatten(Rows(s.flushes)) + s.batch;
    assert front + (s.queue + [row]) == (front + s.queue) + [row];
  }

  lemma EnqueueKeepsStored(s: State, row: Row)
    requires Stored(s) && s.tally.converting > 0
    ensures Stored(StepEnqueue(s, row))
  {
    var t := StepEnqueue(s, row);
    FullKeysSnoc(s.accepted, row);
    assert Pending(t) == Pending(s);
  }

  lemma EnqueueKeepsSized(s: State, row: Row)
    requires Sized(s) && s.tally.converting > 0
    ensures Sized(StepEnqueue(s, row))
  {
    var t := StepEnqueue(s, row);
    assert t.flushes == s.flushes && t.phase == s.phase && t.batch == s.batch;
  }

  lemma EnqueueKeepsCounted(s: State, row: Row)
    requires Counted(s) && s.tally.converting > 0
    ensures Counted(StepEnqueue(s, row))
  {
  }

  lemma EnqueueKeepsInv(s: State, row: Row)
    requires Inv(s) && s.tally.converting > 0
    ensures Inv(StepEnqueue(s, row))
  {
    EnqueueKeepsConserved(s, row);
    EnqueueKeepsStored(s, row);
    EnqueueKeepsSized(s, row);
    EnqueueKeepsCounted(s, row);
  }

  lemma TakeRowKeepsInv(s: State)
    requires Inv(s) && Enabled(s, TakeRow)
    ensures Inv(StepTakeRow(s))
  {
    var done, x := Flatten(Rows(s.flushes)), [s.queue[0]];
    assert s.queue == x + s.queue[1..];
    assert done + (s.batch + x) + s.queue[1..] == done + s.batch + (x + s.queue[1..]);
  }

  /** Appending the current batch to the flushes. */
  lemma FlushSnoc(flushes: seq<Flush>, x: Flush)
    ensures Flatten(Rows(flushes + [x])) == Flatten(Rows(flushes)) + x.rows
    ensures AppliedRows(flushes + [x]) == AppliedRows(flushes) + if x.applied then x.rows else []
    ensures AckedCount(flushes + [x]) == AckedCount(flushes) + if x.acked then |x.rows| else 0
    ensures GivenUp(flushes + [x]) == GivenUp(flushes) + if x.acked then 0 else 1
  {
    assert (flushes + [x])[..|flushes|] == flushes;
    assert Rows(flushes + [x]) == Rows(flushes) + [x.rows];
    FlattenSnoc(Rows(flushes), x.rows);
  }

  /** Writing the batch once more, or for the first time, leaves it in the table once. */
  lemma WrittenOnce(t0: Table, before: seq<Row>, batch: seq<Row>, hit: bool)
    requires AllFullKeys(batch) || !hit
    ensures Apply(Apply(t0, before + if hit then batch else []), batch) == Apply(t0, before + batch)
  {
    ApplyAppend(t0, before, batch);
    if hit {
      SendingTwiceIsOnceIff(Apply(t0, before), batch);
    } else {
      assert before + [] == before;
    }
  }

  lemma BatchHasFullKeys(s: State)
    requires Conserved(s) && AllFullKeys(s.accepted)
    ensures AllFullKeys(s.batch)
  {
    var k := |Flatten(Rows(s.flushes))|;
    forall i | 0 <= i < |s.batch|
      ensures HasFullKey(s.batch[i])
    {
      assert HasFullKey(s.accepted[k + i]);
    }
  }

  /** The three outcomes of an attempt that does not panic. */
  lemma AttemptReturns(s: State, outcome: Outcome, table: Table, lostAcks: nat)
    requires s.phase.Writing? && s.phase.attempt <= |RETRY_BACKOFF_MS|
    requires table == if outcome == FailedUnapplied then s.table else Apply(s.table, s.batch)
    requires lostAcks == s.lostAcks + if outcome == FailedApplied then 1 else 0
    ensures var t, Writing(attempt, resume, _) := s.(table := table, lostAcks := lostAcks), s.phase;
      StepAttempt(s, outcome) ==
        if outcome == Committed then
          t.(writeBatchSize := s.writeBatchSize + |s.batch|, flushes := s.flushes + [Flush(s.batch, true, true)],
             batch := [], phase := Resumed(resume))
        else if attempt < s.cfg.maxRetries then t.(phase := Writing(attempt + 1, resume, HitAfter(s, outcome)))
        else
          t.(sendFailed := s.sendFailed + 1, flushes := s.flushes + [Flush(s.batch, false, HitAfter(s, outcome))],
             batch := [], phase := Resumed(resume))
  {
  }

  /** After the attempt: does the batch sit in the table? */
  predicate HitAfter(s: State, outcome: Outcome)
    requires s.phase.Writing?
  {
    s.phase.hit || outcome != FailedUnapplied
  }

  lemma AttemptTable(s: State, outcome: Outcome)
    requires s.phase.Writing? && s.phase.attempt <= |RETRY_BACKOFF_MS|
    ensures StepAttempt(s, outcome).table == if outcome == FailedUnapplied then s.table else Apply(s.table, s.batch)
  {
  }

  lemma TableAfterAttempt(s: State, outcome: Outcome)
    requires s.phase.Writing? && s.phase.attempt <= |RETRY_BACKOFF_MS|
    requires AllFullKeys(s.batch) || !s.phase.hit
    requires s.table == Apply(s.table0, AppliedRows(s.flushes) + Pending(s))
    ensures StepAttempt(s, outcome).table
         == Apply(s.table0, AppliedRows(s.flushes) + if HitAfter(s, outcome) then s.batch else [])
  {
    AttemptTable(s, outcome);
    if outcome != FailedUnapplied {
      WrittenOnce(s.table0, AppliedRows(s.flushes), s.batch, s.phase.hit);
    }
  }

  /** What the attempt leaves behind, in the flushes or still pending, is the batch if it is in
      the table, otherwise nothing. */
  lemma AttemptLeaves(s: State, outcome: Outcome)
    requires s.phase.Writing? && s.phase.attempt <= |RETRY_BACKOFF_MS|
    ensures var t := StepAttempt(s, outcome);
      AppliedRows(t.flushes) + Pending(t)
      == AppliedRows(s.flushes) + if HitAfter(s, outcome) then s.batch else []
  {
    var t := StepAttempt(s, outcome);
    if !t.phase.Writing? {
      FlushSnoc(s.flushes, Flush(s.batch, outcome == Committed, HitAfter(s, outcome)));
      assert Pending(t) == [];
      assert AppliedRows(t.flushes) + [] == AppliedRows(t.flushes);
    }
  }

  lemma AttemptCountsLostAcks(s: State, outcome: Outcome)
    requires s.phase.Writing? && (s.phase.hit ==> s.lostAcks > 0)
    ensures var t := StepAttempt(s, outcome);
      && t.accepted == s.accepted && t.table0 == s.table0 && s.lostAcks <= t.lostAcks
      && (t.phase.Writing? && t.phase.hit ==> t.lostAcks > 0)
  {
  }

  lemma AttemptKeepsStored(s: State, outcome: Outcome)
    requires Conserved(s) && Stored(s) && s.phase.Writing?
    ensures Stored(StepAttempt(s, outcome))
  {
    AttemptCountsLostAcks(s, outcome);
    if s.phase.attempt > |RETRY_BACKOFF_MS| {
      assert Pending(StepAttempt(s, outcome)) == Pending(s);
    } else if AllFullKeys(s.accepted) || s.lostAcks == 0 {
      if AllFullKeys(s.accepted) {
        BatchHasFullKeys(s);
      }
      AttemptLeaves(s, outcome);
      TableAfterAttempt(s, outcome);
    }
  }

  lemma AttemptKeepsConserved(s: State, outcome: Outcome)
    requires Conserved(s) && s.phase.Writing?
    ensures Conserved(StepAttempt(s, outcome))
  {
    FlushSnoc(s.flushes, Flush(s.batch, outcome == Committed, HitAfter(s, outcome)));
    var done := Flatten(Rows(s.flushes));
    assert (done + s.batch) + [] == done + s.batch;
  }

  lemma SameTallySameCount(s: State, t: State)
    requires RequestsCounted(s) && t.tally == s.tally && t.accepted == s.accepted
    ensures RequestsCounted(t)
  {
  }

  lemma AttemptCounts(s: State, outcome: Outcome)
    requires s.phase.Writing?
    ensures var t, x := StepAttempt(s, outcome), Flush(s.batch, outcome == Committed, HitAfter(s, outcome));
      if s.phase.attempt > |RETRY_BACKOFF_MS|
      then t.flushes == s.flushes && t.writeBatchSize == s.writeBatchSize && t.phase.Panicked?
           && t.sendFailed == s.sendFailed + 1
      else
        && !t.phase.Panicked?
        && t.writeBatchSize == s.writeBatchSize + (if x.acked then |s.batch| else 0)
        && ((t.flushes == s.flushes && t.sendFailed == s.sendFailed && !x.acked)
            || (t.flushes == s.flushes + [x] && t.sendFailed == s.sendFailed + if x.acked then 0 else 1))
  {
  }

  lemma AttemptKeepsFlushesCounted(s: State, outcome: Outcome)
    requires FlushesCounted(s) && s.phase.Writing?
    ensures FlushesCounted(StepAttempt(s, outcome))
  {
    AttemptCounts(s, outcome);
    FlushSnoc(s.flushes, Flush(s.batch, outcome == Committed, HitAfter(s, outcome)));
  }

  lemma AttemptKeepsCounted(s: State, outcome: Outcome)
    requires Counted(s) && s.phase.Writing?
    ensures Counted(StepAttempt(s, outcome))
  {
    AttemptKeepsFlushesCounted(s, outcome);
    SameTallySameCount(s, StepAttempt(s, outcome));
  }

  lemma AttemptKeepsSized(s: State, outcome: Outcome)
    requires Sized(s) && s.phase.Writing?
    ensures Sized(StepAttempt(s, outcome))
  {
    var t := StepAttempt(s, outcome);
    if t.flushes != s.flushes {
      var x := t.flushes[|s.flushes|];
      assert t.flushes == s.flushes + [x] && x.rows == s.batch;
    }
  }

  /** A step of Update that only moves a counter. */
  predicate OnlyCounts(e: Event) {
    e.Receive? || e.ConvertFails? || e.CountFailed? || e.CountSent? || e.CountFull?
  }

  lemma CountingKeepsInv(s: State, e: Event)
    requires Inv(s) && Enabled(s, e) && OnlyCounts(e)
    ensures Inv(Step(s, e))
  {
    var t := Step(s, e);
    assert t == s.(tally := t.tally);
  }

  /** Close, the ticker and the two ways the loop notices that it is over leave queue, batch,
      table and flushes alone. */
  lemma SignalKeepsInv(s: State, e: Event)
    requires Inv(s) && Enabled(s, e) && (e.CloseStop? || e.Tick? || e.SeeStop? || e.SeeEmpty?)
    ensures Inv(Step(s, e))
  {
    var t := Step(s, e);
    assert t == s.(phase := t.phase, stopping := t.stopping);
    assert Pending(t) == Pending(s);
  }

  lemma StepKeepsInv(s: State, e: Event)
    requires Inv(s) && Enabled(s, e)
    ensures Inv(Step(s, e))
  {
    match e
    case Enqueue(row) => EnqueueKeepsInv(s, row);
    case TakeRow => TakeRowKeepsInv(s);
    case Attempt(outcome) =>
      AttemptKeepsStored(s, outcome);
      AttemptKeepsConserved(s, outcome);
      AttemptKeepsCounted(s, outcome);
      AttemptKeepsSized(s, outcome);
    case _ =>
      if OnlyCounts(e) {
        CountingKeepsInv(s, e);
      } else {
        SignalKeepsInv(s, e);
      }
  }

  lemma StepKeepsSetup(s: State, e: Event)
    requires Enabled(s, e)
    ensures Step(s, e).cfg == s.cfg && Step(s, e).table0 == s.table0
  {
  }

  lemma {:induction false} EveryRunKeepsInv(s: State, events: seq<Event>, t: State)
    requires Inv(s) && IsRun(s, events, t)
    ensures Inv(t) && t.cfg == s.cfg && t.table0 == s.table0
    decreases |events|
  {
    if events != [] {
      StepKeepsInv(s, events[0]);
      StepKeepsSetup(s, events[0]);
      EveryRunKeepsInv(Step(s, events[0]), events[1..], t);
    }
  }
}
