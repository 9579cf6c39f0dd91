/** What the MySQL writer guarantees over whole runs. */
module MysqlWriter {
  import opened Sequences
  import opened DetailTable
  import opened WriterMachine

  /** In every reachable state, after a panic too: the batches flushed so far, the current batch
      and the queue are together the accepted rows, in the order they were accepted; each
      flushed batch has between 1 and batchSize rows; WRITE_BATCH_SIZE is the number of rows in
      acknowledged batches and SEND_MYSQL_FAILED the number of batches given up. */
  lemma RowsAreConserved(cfg: Config, table: Table, events: seq<Event>, t: State)
    requires cfg.Valid() && IsRun(Init(cfg, table), events, t)
    ensures Flatten(Rows(t.flushes)) + t.batch + t.queue == t.accepted
    ensures forall i :: 0 <= i < |t.flushes| ==> 1 <= |t.flushes[i].rows| <= cfg.batchSize
    ensures |t.batch| <= cfg.batchSize && |t.queue| <= cfg.queueSize
    ensures t.writeBatchSize == AckedCount(t.flushes)
    ensures t.sendFailed == GivenUp(t.flushes) + if t.phase.Panicked? then 1 else 0
  {
    InitHasInv(cfg, table);
    EveryRunKeepsInv(Init(cfg, table), events, t);
  }

  /** Whenever no Update is under way, the counters of the module add up. */
  lemma CountersAddUp(cfg: Config, table: Table, events: seq<Event>, t: State)
    requires cfg.Valid() && IsRun(Init(cfg, table), events, t)
    requires t.tally.converting == t.tally.failing == t.tally.queued == t.tally.rejected == 0
    ensures t.tally.receivedReq == t.tally.convertFailed + t.tally.sentToMysql + t.tally.chnFull
    ensures |t.accepted| == t.tally.sentToMysql
  {
    InitHasInv(cfg, table);
    EveryRunKeepsInv(Init(cfg, table), events, t);
  }

  ghost predicate AllApplied(flushes: seq<Flush>) {
    forall i :: 0 <= i < |flushes| ==> flushes[i].applied
  }

  lemma {:induction false} AppliedIsEverything(flushes: seq<Flush>)
    requires AllApplied(flushes)
    ensures AppliedRows(flushes) == Flatten(Rows(flushes))
    decreases |flushes|
  {
    if flushes == [] {
      assert Rows(flushes) == [];
    } else {
      var n := |flushes| - 1;
      AppliedIsEverything(flushes[..n]);
      FlushSnoc(flushes[..n], flushes[n]);
      assert flushes == flushes[..n] + [flushes[n]];
    }
  }

  /** Whatever was retried and given up, the table is what upserting the rows of the batches that
      reached it, once each and in order, would have made of it. */
  lemma TableHoldsAppliedBatches(cfg: Config, table: Table, events: seq<Event>, t: State)
    requires cfg.Valid() && IsRun(Init(cfg, table), events, t)
    requires AllFullKeys(t.accepted) || t.lostAcks == 0
    ensures t.table == Apply(table, AppliedRows(t.flushes) + Pending(t))
  {
    InitHasInv(cfg, table);
    EveryRunKeepsInv(Init(cfg, table), events, t);
  }

  /** Batching is transparent: if every batch got through, then once queue and batch are empty
      the table is as if the accepted rows had been upserted one at a time, however they were
      cut into batches by size, timer and shutdown. */
  lemma BatchingIsTransparent(cfg: Config, table: Table, events: seq<Event>, t: State)
    requires cfg.Valid() && IsRun(Init(cfg, table), events, t)
    requires AllFullKeys(t.accepted) || t.lostAcks == 0
    requires AllApplied(t.flushes) && t.batch == [] && t.queue == []
    ensures t.table == Apply(table, t.accepted)
  {
    TableHoldsAppliedBatches(cfg, table, events, t);
    RowsAreConserved(cfg, table, events, t);
    AppliedIsEverything(t.flushes);
    assert Pending(t) == [];
    assert AppliedRows(t.flushes) + [] == t.accepted;
  }

  // ---------------------------------------------------------------- a queue that has room

  /** The rows that Update tries to enqueue, in order. */
  function Offered(events: seq<Event>): seq<Row> {
    if events == [] then []
    else (if events[0].Enqueue? then [events[0].row] else []) + Offered(events[1..])
  }

  /** How many rows found the queue full. */
  function Refused(s: State): nat {
    s.tally.rejected + s.tally.chnFull
  }

  lemma StepAccepts(s: State, e: Event)
    requires Enabled(s, e)
    ensures Refused(s) <= Refused(Step(s, e))
    ensures Refused(Step(s, e)) == Refused(s) ==>
      Step(s, e).accepted == s.accepted + if e.Enqueue? then [e.row] else []
  {
  }

  /** If no row found the queue full, all that were offered have been accepted, in that order. */
  lemma {:induction false} OfferedIsAccepted(s: State, events: seq<Event>, t: State)
    requires IsRun(s, events, t)
    ensures Refused(s) <= Refused(t)
    ensures Refused(t) == Refused(s) ==> t.accepted == s.accepted + Offered(events)
    decreases |events|
  {
    if events != [] {
      var r := Step(s, events[0]);
      StepAccepts(s, events[0]);
      OfferedIsAccepted(r, events[1..], t);
      var x := if events[0].Enqueue? then [events[0].row] else [];
      Reassociate(s.accepted, x, Offered(events[1..]));
    }
  }

  // ---------------------------------------------------------------- rows the table refuses

  /** Every accepted row has a cell for every column, and what has been applied could be stored. */
  ghost predicate Proper(s: State) {
    && (forall i :: 0 <= i < |s.accepted| ==> |s.accepted[i]| == s.cfg.width)
    && (forall i :: 0 <= i < |s.flushes| && s.flushes[i].applied ==> AllStorable(s.flushes[i].rows))
    && (s.phase.Writing? && s.phase.hit ==> AllStorable(s.batch))
    && (s.phase.Panicked? && s.phase.hit ==> AllStorable(s.batch))
  }

  lemma AttemptKeepsProper(s: State, outcome: Outcome)
    requires Proper(s) && Enabled(s, Attempt(outcome))
    ensures Proper(StepAttempt(s, outcome))
  {
    var t := StepAttempt(s, outcome);
    if |t.flushes| > |s.flushes| {
      var x := Flush(s.batch, outcome == Committed, HitAfter(s, outcome));
      assert t.flushes == s.flushes + [x];
    }
  }

  lemma StepKeepsProper(s: State, e: Event)
    requires Proper(s) && Enabled(s, e)
    ensures Proper(Step(s, e))
  {
    match e
    case Attempt(outcome) => AttemptKeepsProper(s, outcome);
    case Enqueue(row) =>
    case _ => assert Step(s, e).flushes == s.flushes;
  }

  lemma {:induction false} EveryRunIsProper(s: State, events: seq<Event>, t: State)
    requires Proper(s) && IsRun(s, events, t)
    ensures Proper(t)
    decreases |events|
  {
    if events != [] {
      StepKeepsProper(s, events[0]);
      EveryRunIsProper(Step(s, events[0]), events[1..], t);
    }
  }

  /** One row without host or time sinks its batch: no transaction with such a row in it is ever
      applied or acknowledged, so all of its rows are lost with it. */
  lemma RefusedRowSinksItsBatch(cfg: Config, table: Table, events: seq<Event>, t: State, i: nat)
    requires cfg.Valid() && IsRun(Init(cfg, table), events, t)
    requires i < |t.flushes| && !AllStorable(t.flushes[i].rows)
    ensures !t.flushes[i].applied && !t.flushes[i].acked
  {
    EveryRunIsProper(Init(cfg, table), events, t);
    AckedIsApplied(Init(cfg, table), events, t);
  }

  /** What is acknowledged has been applied. */
  lemma {:induction false} AckedIsApplied(s: State, events: seq<Event>, t: State)
    requires IsRun(s, events, t)
    requires forall i :: 0 <= i < |s.flushes| && s.flushes[i].acked ==> s.flushes[i].applied
    ensures forall i :: 0 <= i < |t.flushes| && t.flushes[i].acked ==> t.flushes[i].applied
    decreases |events|
  {
    if events != [] {
      AckedIsApplied(Step(s, events[0]), events[1..], t);
    }
  }

  /** The batch at hand is made of accepted rows. */
  lemma BatchIsAccepted(cfg: Config, table: Table, events: seq<Event>, t: State)
    requires cfg.Valid() && IsRun(Init(cfg, table), events, t)
    ensures forall i :: 0 <= i < |t.batch| ==> |t.batch[i]| == cfg.width
    ensures t.phase.Writing? ==> t.batch != []
  {
    InitHasInv(cfg, table);
    EveryRunKeepsInv(Init(cfg, table), events, t);
    RowsAreConserved(cfg, table, events, t);
    EveryRunIsProper(Init(cfg, table), events, t);
    EveryRunKeepsSetup(Init(cfg, table), events, t);
    var k := |Flatten(Rows(t.flushes))|;
    forall i | 0 <= i < |t.batch|
      ensures |t.batch[i]| == cfg.width
    {
      assert t.batch[i] == t.accepted[k + i];
    }
  }

  lemma {:induction false} EveryRunKeepsSetup(s: State, events: seq<Event>, t: State)
    requires IsRun(s, events, t)
    ensures t.cfg == s.cfg && t.table0 == s.table0
    decreases |events|
  {
    if events != [] {
      StepKeepsSetup(s, events[0]);
      EveryRunKeepsSetup(Step(s, events[0]), events[1..], t);
    }
  }

  // ---------------------------------------------------------------- the fifth attempt

  /** Once the writer has panicked nothing is written any more, whatever is still accepted. */
  lemma {:induction false} NothingIsWrittenAfterAPanic(s: State, events: seq<Event>, t: State)
    requires s.phase.Panicked? && IsRun(s, events, t)
    ensures t.phase == s.phase && t.table == s.table && t.flushes == s.flushes && t.batch == s.batch
    ensures s.queue <= t.queue
    decreases |events|
  {
    if events != [] {
      NothingIsWrittenAfterAPanic(Step(s, events[0]), events[1..], t);
    }
  }

  /** The writer can panic exactly if it is configured for four retries or more: the backoff
      table has three entries and is read before the index is clamped. */
  lemma WriterCanPanicIff(cfg: Config, table: Table)
    requires cfg.Valid()
    ensures (exists events, t :: IsRun(Init(cfg, table), events, t) && t.phase.Panicked?)
       <==> cfg.maxRetries >= 4
  {
    forall events, t | IsRun(Init(cfg, table), events, t) && t.phase.Panicked?
      ensures cfg.maxRetries >= 4
    {
      InitHasInv(cfg, table);
      EveryRunKeepsInv(Init(cfg, table), events, t);
    }
    if cfg.maxRetries >= 4 {
      var t := PanickingRun(cfg, table);
    }
  }

  /** One row is accepted and the writer takes it. */
  lemma RowTaken(cfg: Config, table: Table, row: Row) returns (events: seq<Event>, t: State)
    requires cfg.Valid() && |row| == cfg.width
    ensures IsRun(Init(cfg, table), events, t) && t.cfg == cfg
    ensures t.batch == [row]
    ensures t.phase == if cfg.batchSize == 1 then Writing(0, ToSelect, false) else Selecting
  {
    var s0 := Init(cfg, table);
    var s1 := Step(s0, Receive(true));
    var s2 := Step(s1, Enqueue(row));
    assert s2.queue == [row];
    t := Step(s2, TakeRow);
    assert t.batch == [row];
    events := [Receive(true), Enqueue(row), TakeRow];
    RunOfThree(s0, events);
  }

  lemma PanickingRun(cfg: Config, table: Table) returns (t: State)
    requires cfg.Valid() && cfg.maxRetries >= 4
    ensures exists events :: IsRun(Init(cfg, table), events, t)
    ensures t.phase.Panicked?
  {
    var start, s := RowTaken(cfg, table, seq(cfg.width, _ => Null));
    if cfg.batchSize > 1 {
      RunOfOne(s, Tick);
      RunsJoin(Init(cfg, table), start, s, [Tick], Step(s, Tick));
      start, s := start + [Tick], Step(s, Tick);
    }
    t := FiveFailures(s);
    var events :| IsRun(s, events, t);
    RunsJoin(Init(cfg, table), start, s, events, t);
  }

  lemma FiveFailures(s: State) returns (t: State)
    requires s.phase == Writing(0, ToSelect, false) && s.cfg.maxRetries >= 4
    ensures t.phase.Panicked? && exists events :: IsRun(s, events, t)
  {
    var fail := Attempt(FailedUnapplied);
    var a := Step(s, fail);
    var b := Step(a, fail);
    var c := Step(b, fail);
    var d := Step(c, fail);
    t := Step(d, fail);
    RunOfThree(s, [fail, fail, fail]);
    RunOfOne(c, fail);
    RunOfOne(d, fail);
    RunsJoin(s, [fail, fail, fail], c, [fail], d);
    RunsJoin(s, [fail, fail, fail] + [fail], d, [fail], t);
  }

  lemma RunOfOne(s: State, e: Event)
    requires Enabled(s, e)
    ensures IsRun(s, [e], Step(s, e))
  {
    assert [e][1..] == [];
  }

  lemma RunOfThree(s: State, events: seq<Event>)
    requires |events| == 3
    requires Enabled(s, events[0])
    requires Enabled(Step(s, events[0]), events[1])
    requires Enabled(Step(Step(s, events[0]), events[1]), events[2])
    ensures IsRun(s, events, Step(Step(Step(s, events[0]), events[1]), events[2]))
  {
    var b := Step(Step(s, events[0]), events[1]);
    RunOfOne(b, events[2]);
    assert events[1..][1..] == [events[2]];
    assert events[1..][0] == events[1];
    assert IsRun(Step(s, events[0]), events[1..], Step(b, events[2]));
  }

  lemma {:induction false} RunsJoin(s: State, a: seq<Event>, t: State, b: seq<Event>, u: State)
    requires IsRun(s, a, t) && IsRun(t, b, u)
    ensures IsRun(s, a + b, u)
    decreases |a|
  {
    if a == [] {
      assert a + b == b;
    } else {
      RunsJoin(Step(s, a[0]), a[1..], t, b, u);
      assert (a + b)[1..] == a[1..] + b;
    }
  }

  // ---------------------------------------------------------------- shutdown

  /** What the writer still has to do with its batch before it can return. */
  function Stage(s: State): nat {
    var a := s.cfg.maxRetries + 2;
    match s.phase
    case Selecting => 2 + (if s.batch == [] then 0 else a)
    case Draining => 1 + (if s.batch == [] then 0 else a)
    case Writing(attempt, resume, _) =>
      (if attempt < a then a - 1 - attempt else 0)
      + (match resume case ToSelect => 2 case ToDrain => 1 case ToExit => 0)
    case Exited => 0
    case Panicked(_) => 0
  }

  /** What the writer still has to do before it can return, if nothing more is accepted. */
  function Work(s: State): nat {
    Stage(s) + |s.queue| * (s.cfg.maxRetries + 3)
  }

  lemma StageOfStep(s: State, e: Event)
    requires Sized(s) && Enabled(s, e) && OfWriter(e)
    ensures var t := Step(s, e);
      && t.cfg == s.cfg
      && if e.TakeRow? then |t.queue| == |s.queue| - 1 && Stage(t) <= Stage(s) + s.cfg.maxRetries + 2
         else t.queue == s.queue && Stage(t) < Stage(s)
  {
  }

  /** Every step of the writer leaves it less to do, so shutting down takes a bounded time. */
  lemma WriterStepIsWork(s: State, e: Event)
    requires Sized(s) && Enabled(s, e) && OfWriter(e)
    ensures Work(Step(s, e)) < Work(s)
  {
    StageOfStep(s, e);
    if e.TakeRow? {
      var n, k := |s.queue|, s.cfg.maxRetries + 3;
      assert (n - 1) * k == n * k - k;
    }
  }

  /** After Close the writer always has a next step until it has returned. */
  lemma WriterCanGoOn(s: State)
    requires Inv(s) && s.stopping && s.phase != Exited && !s.phase.Panicked?
    ensures exists e :: OfWriter(e) && Enabled(s, e)
  {
    match s.phase
    case Selecting => assert Enabled(s, SeeStop);
    case Draining => assert if s.queue == [] then Enabled(s, SeeEmpty) else Enabled(s, TakeRow);
    case Writing(_, _, _) => assert Enabled(s, Attempt(FailedUnapplied));
  }

  ghost predicate Leaving(s: State) {
    s.phase == Exited || (s.phase.Writing? && s.phase.resume == ToExit)
  }

  ghost predicate NothingEnqueued(events: seq<Event>) {
    forall i :: 0 <= i < |events| ==> !events[i].Enqueue?
  }

  /** How many of the steps are the writer's. */
  function WriterSteps(events: seq<Event>): nat {
    if events == [] then 0 else (if OfWriter(events[0]) then 1 else 0) + WriterSteps(events[1..])
  }

  /** Shutdown drains: if nothing is enqueued any more and there is no panic, the writer returns
      after at most Work(s) steps of its own, and then every row accepted before has been flushed
      and the queue is empty. Other goroutines may still count what they have done. */
  lemma {:induction false} ShutdownDrains(s: State, events: seq<Event>, t: State)
    requires Inv(s) && IsRun(s, events, t) && (Leaving(s) ==> s.queue == [])
    requires NothingEnqueued(events)
    ensures Inv(t) && WriterSteps(events) + Work(t) <= Work(s)
    ensures t.accepted == s.accepted && (Leaving(t) ==> t.queue == [])
    ensures t.phase == Exited ==> Flatten(Rows(t.flushes)) == s.accepted
    decreases |events|
  {
    if events != [] {
      StepKeepsInv(s, events[0]);
      StepKeepsAccepted(s, events[0]);
      StepIsWork(s, events[0]);
      ShutdownDrains(Step(s, events[0]), events[1..], t);
    } else {
      assert Flatten(Rows(t.flushes)) + [] + [] == Flatten(Rows(t.flushes));
    }
  }

  lemma StepIsWork(s: State, e: Event)
    requires Sized(s) && Enabled(s, e) && !e.Enqueue?
    ensures Work(Step(s, e)) + (if OfWriter(e) then 1 else 0) <= Work(s)
  {
    if OfWriter(e) {
      WriterStepIsWork(s, e);
    } else {
      var t := Step(s, e);
      assert t.phase == s.phase && t.batch == s.batch && t.queue == s.queue && t.cfg == s.cfg;
    }
  }

  lemma StepKeepsAccepted(s: State, e: Event)
    requires Enabled(s, e) && !e.Enqueue? && (Leaving(s) ==> s.queue == [])
    ensures var t := Step(s, e);
      t.accepted == s.accepted && (Leaving(t) ==> t.queue == [])
  {
  }
}
