/** The Kafka producer with the fields and methods of the source: KafkaProducer
    (reader_modules/mod_kafka/kafka_producer.go) and the loop of Update
    (reader_modules/mod_kafka/mod_kafka.go), tied to the producer machine as RecordWriter is tied to
    the writer machine. */
module KafkaProducer {
  import opened Sequences
  import opened M = KafkaMachine
  import opened Turns
  import opened UpdateLoop

  datatype Choice = PickDone | PickMessage | PickTick

  /** What happens up to one step of the sending goroutine: steps of the other goroutines, then the
      case `select` takes or the broker's answer to a write. */
  datatype Turn = Turn(others: seq<Event>, choice: Choice, ok: bool)

  // ---------------------------------------------------------------- Update

  /** What Update changes: the channel, what has been accepted so far, and the counters. */
  datatype Intake = Intake(queue: seq<Message>, accepted: seq<Message>, tally: Tally)

  /** The counters after so many entries, of which some were requests with a message, some requests
      without, and `sent` messages found room: SENT_TO_KAFKA counts the others too. */
  ghost predicate Tallied(was: Tally, now: Tally, logs: nat, messages: nat, failed: nat, sent: nat) {
    && sent <= messages
    && now == was.(receivedLogs := was.receivedLogs + logs, receivedReq := was.receivedReq + failed + messages,
                   convertFailed := was.convertFailed + failed, sentToKafka := was.sentToKafka + messages,
                   chnFull := was.chnFull + messages - sent)
  }

  /** From `was` to `now` by handling the entries. */
  ghost predicate Handled(was: Intake, now: Intake, entries: seq<Entry<Message>>, capacity: nat) {
    var h := Handle(was.queue, entries, capacity);
    && now.queue == was.queue + h.sent && now.accepted == was.accepted + h.sent
    && Tallied(was.tally, now.tally, h.logs, h.made, h.failed, |h.sent|)
  }

  lemma HandledNone(was: Intake, capacity: nat)
    requires |was.queue| <= capacity
    ensures Handled(was, was, [], capacity)
  {
    assert was.queue + [] == was.queue && was.accepted + [] == was.accepted;
  }

  lemma HandledJoin(was: Intake, mid: Intake, now: Intake, a: seq<Entry<Message>>, b: seq<Entry<Message>>,
                    capacity: nat)
    requires |was.queue| <= capacity && Handled(was, mid, a, capacity) && Handled(mid, now, b, capacity)
    ensures Handled(was, now, a + b, capacity)
  {
    HandleJoin(was.queue, a, b, capacity);
    var x, y := Handle(was.queue, a, capacity).sent, Handle(mid.queue, b, capacity).sent;
    Reassociate(was.queue, x, y);
    Reassociate(was.accepted, x, y);
  }

  lemma HandledOn(was: Intake, mid: Intake, now: Intake, entries: seq<Entry<Message>>, i: nat, capacity: nat)
    requires |was.queue| <= capacity && i < |entries|
    requires Handled(was, mid, entries[..i], capacity) && Handled(mid, now, [entries[i]], capacity)
    ensures Handled(was, now, entries[..i + 1], capacity)
  {
    HandledJoin(was, mid, now, entries[..i], [entries[i]], capacity);
    NextEntry(entries, i);
  }

  // ---------------------------------------------------------------- turns

  /** What the sending goroutine does in its turn. */
  function Act(s: State, t: Turn): State {
    match s.phase
    case Selecting =>
      if t.choice == PickDone && s.cancelled then Step(s, SeeDone)
      else if t.choice == PickMessage && s.queue != [] then Step(s, TakeMessage)
      else if t.choice == PickTick && s.batch != [] then Step(s, Tick)
      else s
    case Draining => if s.queue != [] then Step(s, TakeMessage) else Step(s, SeeEmpty)
    case Writing(_) => Step(s, WriteResult(t.ok))
    case DeadLettering(_) => Step(s, DlqResult(t.ok))
    case Exited => s
  }

  /** One turn: the other goroutines run, then the sender. */
  function TurnStep(s: State, t: Turn): State {
    Act(OtherSteps(s, t.others), t)
  }

  /** The batch that has to be flushed now: one that has become full, or at a tick whatever there
      is; in the drain loop nothing until the channel is empty, and then everything at once. */
  ghost function Due(s: State, choice: Choice): seq<Message> {
    if s.phase == Draining then if s.queue == [] then s.batch else []
    else if choice == PickMessage && s.queue != [] then
      if |s.batch| + 1 >= s.cfg.batchSize then s.batch + [s.queue[0]] else []
    else if choice == PickTick then s.batch
    else []
  }

  /** The cancellation has been seen: the sender is in the drain loop, or on its way out with an
      empty channel. */
  ghost predicate Closing(s: State) {
    && s.phase != Selecting && (s.phase.Writing? ==> s.phase.resume == ToExit)
    && (s.phase.DeadLettering? ==> s.phase.resume == ToExit)
    && (Leaving(s) ==> s.queue == [])
  }

  /** In none of n turns does another goroutine send a message. */
  ghost predicate NothingComes(schedule: nat -> Turn, from: nat, n: nat) {
    forall k :: from <= k < from + n ==> NothingSent(schedule(k).others)
  }

  lemma ClosingStep(s: State, e: Event)
    requires Inv(s) && Closing(s) && Enabled(s, e) && !e.Send?
    ensures var t := Step(s, e);
      && Inv(t) && Closing(t) && t.accepted == s.accepted
      && Work(t) + (if OfSender(e) then 1 else 0) <= Work(s)
  {
    StepKeepsInv(s, e);
    StepIsWork(s, e);
    StepKeepsAccepted(s, e);
  }

  lemma {:induction false} OthersAreHarmless(s: State, es: seq<Event>)
    requires Inv(s) && Closing(s) && NothingSent(es)
    ensures var t := OtherSteps(s, es);
      Inv(t) && Closing(t) && t.accepted == s.accepted && Work(t) <= Work(s)
    decreases |es|
  {
    if es != [] {
      var e, before := es[|es| - 1], OtherSteps(s, es[..|es| - 1]);
      OthersAreHarmless(s, es[..|es| - 1]);
      if !OfSender(e) && Enabled(before, e) {
        ClosingStep(before, e);
      }
    }
  }

  /** What holds on the way: the invariant, and so much work is left or done with. */
  ghost predicate OnTheWay(s: State, t: State, n: nat) {
    && Inv(t) && Closing(t) && t.accepted == s.accepted
    && (t.phase == Exited || Work(t) + n <= Work(s))
  }

  lemma OneTurnOn(s: State, t: State, n: nat, turn: Turn)
    requires OnTheWay(s, t, n) && NothingSent(turn.others)
    ensures OnTheWay(s, TurnStep(t, turn), n + 1)
  {
    OthersAreHarmless(t, turn.others);
    ActOn(s, OtherSteps(t, turn.others), n, turn);
  }

  lemma ActOn(s: State, t: State, n: nat, turn: Turn)
    requires OnTheWay(s, t, n)
    ensures OnTheWay(s, Act(t, turn), n + 1)
  {
    match t.phase
    case Draining => ClosingStep(t, if t.queue != [] then TakeMessage else SeeEmpty);
    case Writing(_) => ClosingStep(t, WriteResult(turn.ok));
    case DeadLettering(_) => ClosingStep(t, DlqResult(turn.ok));
    case _ =>
  }

  lemma LastTurnOn(s: State, schedule: nat -> Turn, from: nat, t: State, n: nat) returns (u: State)
    requires NothingComes(schedule, from, n) && n > 0
    requires Ran(s, TurnStep, schedule, from, t, from + n)
    ensures Ran(s, TurnStep, schedule, from, u, from + (n - 1))
    ensures OnTheWay(s, u, n - 1) ==> OnTheWay(s, t, n)
  {
    u := LastTurn(s, TurnStep, schedule, from, t, from + n);
    if OnTheWay(s, u, n - 1) {
      OneTurnOn(s, u, n - 1, schedule(from + n - 1));
    }
  }

  lemma {:induction false} ClosingGoesOn(s: State, schedule: nat -> Turn, from: nat, t: State, n: nat)
    requires OnTheWay(s, s, 0) && NothingComes(schedule, from, n)
    requires Ran(s, TurnStep, schedule, from, t, from + n)
    ensures OnTheWay(s, t, n)
    decreases n
  {
    if n == 0 {
      NoTurnLeft(s, TurnStep, schedule, from, t);
    } else {
      var u := LastTurnOn(s, schedule, from, t, n);
      ClosingGoesOn(s, schedule, from, u, n - 1);
    }
  }

  /** Once the cancellation has been seen and nothing more is sent, the sender has returned after so
      many turns as there is work left, however they fall, with every accepted message in a main
      write. */
  lemma ClosingEnds(s: State, schedule: nat -> Turn, from: nat, t: State, n: nat)
    requires Inv(s) && Closing(s) && NothingComes(schedule, from, n) && n > Work(s)
    requires Ran(s, TurnStep, schedule, from, t, from + n)
    ensures t.phase == Exited && Flatten(Messages(t.writes)) == s.accepted
  {
    ClosingGoesOn(s, schedule, from, t, n);
    assert Flatten(Messages(t.writes)) + [] + [] == Flatten(Messages(t.writes));
  }

  // ---------------------------------------------------------------- how long a message waits

  /** How many messages have left the channel. */
  function Out(s: State): int {
    |s.accepted| - |s.queue|
  }

  /** How many messages have been in a main write. */
  function Done(s: State): nat {
    |Flatten(Messages(s.writes))|
  }

  /** How often in turns a..b `select` picks the case that takes a message. */
  ghost function MessageChoices(past: seq<State>, schedule: nat -> Turn, a: nat, b: nat): nat
    requires b < |past|
    decreases b
  {
    if b <= a then 0
    else
      MessageChoices(past, schedule, a, b - 1)
      + if past[b - 1].phase == Selecting && schedule(b - 1).choice == PickMessage then 1 else 0
  }

  /** Message m has been written, and it is `msg`. */
  ghost predicate IsWritten(s: State, m: nat, msg: Message) {
    m < Done(s) && Flatten(Messages(s.writes))[m] == msg
  }

  lemma OtherStepOnlySends(s: State, e: Event)
    requires Enabled(s, e) && !OfSender(e)
    ensures var t := Step(s, e);
      && t.cfg == s.cfg && t.phase == s.phase && t.batch == s.batch && t.writes == s.writes
      && s.accepted <= t.accepted && Out(t) == Out(s)
  {
  }

  lemma {:induction false} OthersOnlySend(s: State, es: seq<Event>)
    ensures var t := OtherSteps(s, es);
      && t.cfg == s.cfg && t.phase == s.phase && t.batch == s.batch && t.writes == s.writes
      && s.accepted <= t.accepted && Out(t) == Out(s)
    decreases |es|
  {
    if es != [] {
      var e, before := es[|es| - 1], OtherSteps(s, es[..|es| - 1]);
      OthersOnlySend(s, es[..|es| - 1]);
      if !OfSender(e) && Enabled(before, e) {
        OtherStepOnlySends(before, e);
      }
    }
  }

  lemma WrittenThenBatch(s: State)
    requires Conserved(s)
    ensures Done(s) + |Unwritten(s)| == Out(s)
    ensures forall i :: 0 <= i < Done(s) ==> Flatten(Messages(s.writes))[i] == s.accepted[i]
  {
  }

  lemma WrittenIsAccepted(s: State, m: nat)
    requires Conserved(s) && m < Done(s)
    ensures m < |s.accepted| && IsWritten(s, m, s.accepted[m])
  {
    WrittenThenBatch(s);
  }

  /** The step the sender takes in its turn, if any. */
  lemma ActIsStep(s: State, t: Turn)
    ensures Act(s, t) == s || exists e :: OfSender(e) && Enabled(s, e) && Act(s, t) == Step(s, e)
  {
    match s.phase
    case Selecting =>
      assert OfSender(SeeDone) && OfSender(TakeMessage) && OfSender(Tick);
    case Draining =>
      var e := if s.queue != [] then TakeMessage else SeeEmpty;
      assert OfSender(e) && Enabled(s, e) && Act(s, t) == Step(s, e);
    case Writing(_) =>
      assert OfSender(WriteResult(t.ok)) && Enabled(s, WriteResult(t.ok));
    case DeadLettering(_) =>
      assert OfSender(DlqResult(t.ok)) && Enabled(s, DlqResult(t.ok));
    case Exited =>
  }

  lemma SenderStepMoves(s: State, e: Event)
    requires Enabled(s, e) && OfSender(e)
    ensures var u := Step(s, e);
      && u.cfg == s.cfg && u.accepted == s.accepted && Out(u) == Out(s) + (if e.TakeMessage? then 1 else 0)
      && (!s.phase.Writing? ==> u.writes == s.writes)
  {
  }

  lemma ActMoves(s: State, t: Turn)
    ensures var u := Act(s, t); u.cfg == s.cfg && u.accepted == s.accepted && Out(s) <= Out(u)
  {
    ActIsStep(s, t);
    if Act(s, t) != s {
      var e :| OfSender(e) && Enabled(s, e) && Act(s, t) == Step(s, e);
      SenderStepMoves(s, e);
    }
  }

  lemma {:induction false} OthersKeepInv(s: State, es: seq<Event>)
    requires Inv(s)
    ensures Inv(OtherSteps(s, es))
    decreases |es|
  {
    if es != [] {
      var e, before := es[|es| - 1], OtherSteps(s, es[..|es| - 1]);
      OthersKeepInv(s, es[..|es| - 1]);
      if !OfSender(e) && Enabled(before, e) {
        StepKeepsInv(before, e);
      }
    }
  }

  lemma TurnKeepsInv(s: State, t: Turn)
    requires Inv(s)
    ensures Inv(TurnStep(s, t))
  {
    var r := OtherSteps(s, t.others);
    OthersKeepInv(s, t.others);
    ActIsStep(r, t);
    if Act(r, t) != r {
      var e :| OfSender(e) && Enabled(r, e) && Act(r, t) == Step(r, e);
      StepKeepsInv(r, e);
    }
  }

  lemma MessageChoiceTakes(s: State, t: Turn)
    requires s.phase == Selecting && t.choice == PickMessage
    ensures Out(s) < Out(Act(s, t)) || |s.accepted| <= Out(Act(s, t))
  {
    if s.queue != [] {
      SenderStepMoves(s, TakeMessage);
    }
  }

  /** One turn of the sender: no message goes back, and if the case that takes a message is picked,
      one more has left the channel, or all have. */
  lemma TurnMoves(s: State, t: Turn)
    ensures var u := TurnStep(s, t);
      && u.cfg == s.cfg && s.accepted <= u.accepted && Out(s) <= Out(u)
      && (s.phase == Selecting && t.choice == PickMessage ==> Out(s) < Out(u) || |s.accepted| <= Out(u))
  {
    OthersOnlySend(s, t.others);
    ActMoves(OtherSteps(s, t.others), t);
    if s.phase == Selecting && t.choice == PickMessage {
      MessageChoiceTakes(OtherSteps(s, t.others), t);
    }
  }

  /** The broker is being sent the batch: at the end of the turn it has been. */
  lemma ActWrites(s: State, t: Turn)
    ensures Done(Act(s, t)) == Done(s) + if s.phase.Writing? then |s.batch| else 0
  {
    if s.phase.Writing? {
      var w := M.Write(s.batch, t.ok, s.phase.resume == ToExit);
      assert Act(s, t).writes == s.writes + [w];
      WriteSnoc(s.writes, w);
    } else if Act(s, t) != s {
      ActIsStep(s, t);
      var e :| OfSender(e) && Enabled(s, e) && Act(s, t) == Step(s, e);
      SenderStepMoves(s, e);
    }
  }

  /** Message m has been in a write, or is in the batch that is about to be written. */
  ghost predicate IsUnderway(s: State, m: nat) {
    m < Done(s) || (s.phase.Writing? && m < Out(s))
  }

  lemma TurnWrites(s: State, t: Turn, m: nat)
    requires Conserved(s) && IsUnderway(s, m)
    ensures m < Done(TurnStep(s, t))
  {
    OthersOnlySend(s, t.others);
    ActWrites(OtherSteps(s, t.others), t);
    WrittenThenBatch(s);
  }

  lemma TickStartsWriting(s: State, t: Turn, m: nat)
    requires Conserved(s) && s.phase == Selecting && t.choice == PickTick && m < Out(s)
    ensures IsUnderway(TurnStep(s, t), m)
  {
    OthersOnlySend(s, t.others);
    WrittenThenBatch(s);
  }

  /** From s to t, in a number of turns of which so many picked the message case. */
  ghost predicate HasMoved(s: State, t: State, choices: nat) {
    && t.cfg == s.cfg && s.accepted <= t.accepted
    && (Out(s) + choices <= Out(t) || |s.accepted| <= Out(t))
  }

  lemma TurnsKeepInv(past: seq<State>, schedule: nat -> Turn, from: nat, k: nat, until: nat)
    requires from <= k <= until && IsPast(past, TurnStep, schedule, from, until) && Inv(past[from])
    ensures Inv(past[k])
  {
    forall s, t | Inv(s)
      ensures Inv(TurnStep(s, t))
    {
      TurnKeepsInv(s, t);
    }
    TurnsKeep(past, TurnStep, schedule, from, k, until, Inv);
  }

  lemma OneTurnMoves(past: seq<State>, schedule: nat -> Turn, from: nat, k: nat, until: nat, s: State, choices: nat)
    requires from <= k < until && IsPast(past, TurnStep, schedule, from, until)
    requires HasMoved(s, past[k], choices)
    ensures HasMoved(s, past[k + 1],
                     choices + if past[k].phase == Selecting && schedule(k).choice == PickMessage then 1 else 0)
  {
    TurnMoves(past[k], schedule(k));
    assert Follows(past, TurnStep, schedule, k);
  }

  lemma {:induction false} MessagesAreTaken(past: seq<State>, schedule: nat -> Turn, from: nat, k: nat, until: nat)
    requires from <= k <= until && IsPast(past, TurnStep, schedule, from, until)
    ensures HasMoved(past[from], past[k], MessageChoices(past, schedule, from, k))
    decreases k
  {
    if from < k {
      MessagesAreTaken(past, schedule, from, k - 1, until);
      OneTurnMoves(past, schedule, from, k - 1, until, past[from], MessageChoices(past, schedule, from, k - 1));
    }
  }

  /** By turn k the message case has been picked often enough to take message m, which was accepted
      before turn `from`; then comes a tick, and one turn after it. */
  ghost predicate HasWaited(past: seq<State>, schedule: nat -> Turn, from: nat, k: nat, until: nat, m: nat)
    requires from < |past|
  {
    && from <= k && k + 2 <= until < |past|
    && m < |past[from].accepted| && m < Out(past[from]) + MessageChoices(past, schedule, from, k)
    && past[k].phase == Selecting && schedule(k).choice == PickTick
  }

  lemma TickWrites(past: seq<State>, schedule: nat -> Turn, from: nat, k: nat, until: nat, m: nat)
    requires from <= until && IsPast(past, TurnStep, schedule, from, until) && Inv(past[from])
    requires HasWaited(past, schedule, from, k, until, m)
    ensures IsUnderway(past[k + 1], m)
  {
    MessagesAreTaken(past, schedule, from, k, until);
    TurnsKeepInv(past, schedule, from, k, until);
    TickStartsWriting(past[k], schedule(k), m);
    assert Follows(past, TurnStep, schedule, k);
  }

  lemma OneTurnWrites(past: seq<State>, schedule: nat -> Turn, from: nat, k: nat, until: nat, m: nat)
    requires from <= k < until && IsPast(past, TurnStep, schedule, from, until) && Inv(past[from])
    requires IsUnderway(past[k], m)
    ensures m < Done(past[k + 1])
  {
    TurnsKeepInv(past, schedule, from, k, until);
    TurnWrites(past[k], schedule(k), m);
    assert Follows(past, TurnStep, schedule, k);
  }

  lemma StaysWritten(past: seq<State>, schedule: nat -> Turn, from: nat, k: nat, until: nat, m: nat)
    requires from <= k <= until && IsPast(past, TurnStep, schedule, from, until) && m < Done(past[k])
    ensures m < Done(past[until])
  {
    var good := s => m < Done(s);
    forall s, t | good(s)
      ensures good(TurnStep(s, t))
    {
      OthersOnlySend(s, t.others);
      ActWrites(OtherSteps(s, t.others), t);
    }
    LaterTurns(past, TurnStep, schedule, from, k, until);
    TurnsKeep(past, TurnStep, schedule, k, until, until, good);
  }

  lemma WrittenWasAccepted(past: seq<State>, schedule: nat -> Turn, from: nat, until: nat, m: nat)
    requires from <= until && IsPast(past, TurnStep, schedule, from, until) && Inv(past[from])
    requires m < Done(past[until])
    ensures m < |past[until].accepted| && IsWritten(past[until], m, past[until].accepted[m])
  {
    TurnsKeepInv(past, schedule, from, until, until);
    WrittenIsAccepted(past[until], m);
  }

  /** A message does not wait for its batch to fill up. Once `select` has picked the message case as
      often as there are messages in front of message m and once more, and then a tick, message m is
      in a main write in the turn after that. */
  lemma MessagesAreWrittenOnTime(past: seq<State>, schedule: nat -> Turn, from: nat, k: nat, until: nat, m: nat)
    requires from <= until && IsPast(past, TurnStep, schedule, from, until) && Inv(past[from])
    requires HasWaited(past, schedule, from, k, until, m)
    ensures IsWritten(past[until], m, past[from].accepted[m])
  {
    TickWrites(past, schedule, from, k, until, m);
    OneTurnWrites(past, schedule, from, k + 1, until, m);
    StaysWritten(past, schedule, from, k + 2, until, m);
    WrittenWasAccepted(past, schedule, from, until, m);
    MessagesAreTaken(past, schedule, from, until, until);
  }

  /** The turns lead from s to t, and every message that has waited is written. */
  ghost predicate RanOnTime(s: State, schedule: nat -> Turn, from: nat, t: State, until: nat) {
    && from <= until
    && exists past :: IsPast(past, TurnStep, schedule, from, until) && past[from] == s && past[until] == t
         && forall k: nat, m: nat :: HasWaited(past, schedule, from, k, until, m) ==> IsWritten(t, m, s.accepted[m])
  }

  lemma EveryRunIsOnTime(s: State, schedule: nat -> Turn, from: nat, t: State, until: nat)
    requires Inv(s) && Ran(s, TurnStep, schedule, from, t, until)
    ensures RanOnTime(s, schedule, from, t, until)
  {
    var past :| IsPast(past, TurnStep, schedule, from, until) && past[from] == s && past[until] == t;
    forall k: nat, m: nat | HasWaited(past, schedule, from, k, until, m)
      ensures IsWritten(t, m, s.accepted[m])
    {
      MessagesAreWrittenOnTime(past, schedule, from, k, until, m);
    }
  }

  class KafkaProducer {
    const cfg: Config
    const schedule: nat -> Turn
    var tick: nat

    var msgCh: seq<Message>
    var cancelled: bool
    var batch: seq<Message>
    var sendFailed: nat
    var dlqSent: nat
    var dlqFailed: nat
    var tally: Tally
    var written: seq<M.Write>              // what the broker was sent
    var deadLetters: seq<seq<Message>>     // what the dead-letter topic was sent

    ghost var events: seq<Event>
    ghost var phase: Phase
    ghost var accepted: seq<Message>

    ghost function View(): State
      reads this
    {
      State(cfg, msgCh, batch, phase, cancelled, accepted, written, deadLetters, sendFailed, dlqSent, dlqFailed, tally)
    }

    /** Messages may have joined the channel since it held `queue`, but none has left it. */
    ghost predicate Growing(queue: seq<Message>, all: seq<Message>)
      reads this`accepted, this`msgCh
    {
      queue <= msgCh && all <= accepted && |accepted| - |all| == |msgCh| - |queue|
    }

    ghost function Taken(): Intake
      reads this`msgCh, this`accepted, this`tally
    {
      Intake(msgCh, accepted, tally)
    }

    ghost predicate Valid()
      reads this
    {
      cfg.Valid() && IsRun(Init(cfg), events, View())
    }

    constructor (cfg: Config, schedule: nat -> Turn)
      requires cfg.Valid()
      ensures Valid() && this.cfg == cfg && this.schedule == schedule && events == [] && tick == 0
      ensures View() == Init(cfg)
    {
      this.cfg, this.schedule, tick := cfg, schedule, 0;
      msgCh, cancelled, batch, written, deadLetters := [], false, [], [], [];
      sendFailed, dlqSent, dlqFailed, tally := 0, 0, 0, Tally(0, 0, 0, 0, 0, 0, 0, 0, 0);
      events, phase, accepted := [], Selecting, [];
    }

    /** Appends a step the fields have just taken to the history. */
    ghost method Record(e: Event, before: State)
      requires cfg.Valid() && IsRun(Init(cfg), events, before)
      requires Enabled(before, e) && View() == Step(before, e)
      modifies this`events
      ensures Valid() && events == old(events) + [e]
    {
      RunCons(before, e, [], View());
      assert [e] + [] == [e];
      RunsJoin(Init(cfg), events, before, [e], View());
      events := events + [e];
    }

    ghost method KnowInvariant()
      requires Valid()
      ensures Inv(View())
    {
      InitHasInv(cfg);
      EveryRunKeepsInv(Init(cfg), events, View());
    }

    ghost method KnowRoom()
      requires Valid()
      ensures |msgCh| <= cfg.Capacity()
    {
      KnowInvariant();
    }

    // -------------------------------------------------------------- the other goroutines

    /** The non-blocking channel operation of Send. */
    method Offer(msg: Message) returns (accepts: bool)
      requires Valid() && tally.converting > 0
      modifies this`msgCh, this`tally, this`accepted, this`events
      ensures Valid() && old(events) <= events
      ensures accepts == (|old(msgCh)| < cfg.Capacity())
      ensures View() == StepSend(old(View()), msg)
    {
      ghost var before := View();
      tally := tally.(converting := tally.converting - 1);
      accepts := |msgCh| < cfg.Capacity();
      if accepts {
        msgCh := msgCh + [msg];
        accepted := accepted + [msg];
        tally := tally.(finishing := tally.finishing + 1);
      } else {
        tally := tally.(rejecting := tally.rejecting + 1);
      }
      Record(M.Send(msg), before);
    }

    /** Non-blocking: a message that finds the channel full is dropped and counted. */
    method Send(msg: Message) returns (ghost accepts: bool)
      requires Valid() && tally.converting > 0
      modifies this`msgCh, this`tally, this`accepted, this`cancelled, this`events
      ensures Valid() && old(events) <= events && cancelled == old(cancelled)
      ensures accepts == (|old(msgCh)| < cfg.Capacity())
      ensures msgCh == old(msgCh) + (if accepts then [msg] else [])
      ensures accepted == old(accepted) + (if accepts then [msg] else [])
      ensures tally == old(tally).(converting := old(tally).converting - 1,
                                   chnFull := old(tally).chnFull + (if accepts then 0 else 1),
                                   finishing := old(tally).finishing + 1)
    {
      var ok := Offer(msg);
      accepts := ok;
      if !ok {
        Count(CountFull);
      }
    }

    /** A step of Update or Close that only counts or signals. */
    method Count(e: Event)
      requires Valid() && Enabled(View(), e) && !e.Send? && !OfSender(e)
      modifies this`cancelled, this`tally, this`events
      ensures Valid() && events == old(events) + [e]
      ensures View() == Step(old(View()), e)
    {
      ghost var before := View();
      match e {
        case Receive(isRequest) =>
          var k := if isRequest then 1 else 0;
          tally := tally.(receivedLogs := tally.receivedLogs + 1, receivedReq := tally.receivedReq + k,
                          converting := tally.converting + k);
        case ConvertFails => tally := tally.(converting := tally.converting - 1, failing := tally.failing + 1);
        case CountFailed => tally := tally.(failing := tally.failing - 1, convertFailed := tally.convertFailed + 1);
        case CountFull =>
          tally := tally.(rejecting := tally.rejecting - 1, chnFull := tally.chnFull + 1,
                          finishing := tally.finishing + 1);
        case CountSent => tally := tally.(finishing := tally.finishing - 1, sentToKafka := tally.sentToKafka + 1);
        case Cancel => cancelled := true;
      }
      Record(e, before);
    }

    /** Close: the sender is told to stop; it writes what is there and returns. */
    method Close()
      requires Valid()
      modifies this`cancelled, this`tally, this`events
      ensures Valid() && cancelled && tally == old(tally) && events == old(events) + [Cancel]
    {
      Count(Cancel);
    }

    /** The message of a converted entry is sent, or dropped, and counted. */
    method SendAndCount(msg: Message)
      requires Valid() && tally.converting > 0
      modifies this`msgCh, this`tally, this`accepted, this`cancelled, this`events
      ensures Valid() && old(events) <= events
      ensures var fits := |old(msgCh)| < cfg.Capacity();
        && msgCh == old(msgCh) + (if fits then [msg] else [])
        && accepted == old(accepted) + (if fits then [msg] else [])
        && tally == old(tally).(converting := old(tally).converting - 1,
                                sentToKafka := old(tally).sentToKafka + 1,
                                chnFull := old(tally).chnFull + (if fits then 0 else 1))
    {
      ghost var accepts := Send(msg);
      Count(CountSent);
    }

    /** A request that cannot be converted is counted. */
    method CountFailure()
      requires Valid() && tally.converting > 0
      modifies this`tally, this`cancelled, this`events
      ensures Valid() && old(events) <= events
      ensures tally == old(tally).(converting := old(tally).converting - 1,
                                   convertFailed := old(tally).convertFailed + 1)
    {
      Count(ConvertFails);
      Count(CountFailed);
    }

    /** One round of the loop of Update. */
    method UpdateOne(entry: Entry<Message>)
      requires Valid()
      modifies this`msgCh, this`tally, this`accepted, this`cancelled, this`events
      ensures Valid() && old(events) <= events
      ensures Handled(old(Taken()), Taken(), [entry], cfg.Capacity())
    {
      Count(Receive(entry.isRequest));
      if entry.isRequest {
        match entry.made
        case None => CountFailure();
        case Some(msg) => SendAndCount(msg);
      }
      HandleOne(old(Taken()).queue, entry, cfg.Capacity());
    }

    /** The loop of Update while nobody takes messages out of the channel. */
    method Update(entries: seq<Entry<Message>>)
      requires Valid()
      modifies this`msgCh, this`tally, this`accepted, this`cancelled, this`events
      ensures Valid() && old(events) <= events
      ensures Handled(old(Taken()), Taken(), entries, cfg.Capacity())
    {
      KnowRoom();
      ghost var was := Taken();
      HandledNone(was, cfg.Capacity());
      for i := 0 to |entries|
        invariant Valid() && old(events) <= events
        invariant Handled(was, Taken(), entries[..i], cfg.Capacity())
      {
        ghost var before := Taken();
        UpdateOne(entries[i]);
        HandledOn(was, before, Taken(), entries, i, cfg.Capacity());
      }
      assert entries[..|entries|] == entries;
    }

    /** The sending goroutine is about to take a step: the other goroutines run first. */
    method Yield() returns (t: Turn)
      requires Valid()
      modifies this`tick, this`msgCh, this`tally, this`accepted, this`cancelled, this`events
      ensures Valid() && old(events) <= events && Growing(old(msgCh), old(accepted))
      ensures t == schedule(old(tick)) && tick == old(tick) + 1
      ensures View() == OtherSteps(old(View()), t.others)
    {
      t := schedule(tick);
      for i := 0 to |t.others|
        invariant Valid() && old(events) <= events && Growing(old(msgCh), old(accepted))
        invariant tick == old(tick)
        invariant View() == OtherSteps(old(View()), t.others[..i])
      {
        assert t.others[..i + 1][..i] == t.others[..i];
        RunOther(t.others[i]);
      }
      assert t.others[..|t.others|] == t.others;
      tick := tick + 1;
    }

    /** One step of another goroutine, if it can happen. */
    method RunOther(e: Event)
      requires Valid()
      modifies this`msgCh, this`tally, this`accepted, this`cancelled, this`events
      ensures Valid() && old(events) <= events && Growing(old(msgCh), old(accepted))
      ensures View() == OtherStep(old(View()), e)
    {
      if e.Send? {
        if tally.converting > 0 {
          ghost var accepts := Offer(e.msg);
        }
      } else {
        var possible := match e
          case Receive(_) => true
          case ConvertFails => tally.converting > 0
          case CountFailed => tally.failing > 0
          case CountFull => tally.rejecting > 0
          case CountSent => tally.finishing > 0
          case Cancel => true
          case _ => false;
        if possible {
          Count(e);
        }
      }
    }

    // -------------------------------------------------------------- the sending goroutine

    /** flush: one write of the whole batch; if it fails, the batch is counted as failed and, if
        there is a dead-letter topic, offered to it. Either way it is forgotten. */
    method Flush(final: bool)
      requires Valid() && phase.Writing? && final == (phase.resume == ToExit)
      modifies this
      ensures Valid() && old(events) <= events && Growing(old(msgCh), old(accepted))
      ensures phase == Resumed(old(phase).resume) && batch == []
      ensures var ok := schedule(old(tick)).ok;
        var failed := !ok && cfg.hasDlq;
        && written == old(written) + [M.Write(old(batch), ok, final)]
        && sendFailed == old(sendFailed) + (if ok then 0 else |old(batch)|)
        && deadLetters == old(deadLetters) + (if failed then [old(batch)] else [])
        && dlqFailed == old(dlqFailed) + (if failed && !schedule(old(tick) + 1).ok then 1 else 0)
      ensures old(tick) < tick && Ran(old(View()), TurnStep, schedule, old(tick), View(), tick)
    {
      var ok := WriteMain(final);
      if !ok && cfg.hasDlq {
        ghost var mid := View();
        WriteToDLQ();
        TurnsJoin(old(View()), TurnStep, schedule, old(tick), mid, tick - 1, View(), tick);
      }
    }

    /** The main write. A failed batch is kept only if it is to be offered to the dead letters. */
    method WriteMain(final: bool) returns (ok: bool)
      requires Valid() && phase.Writing? && final == (phase.resume == ToExit)
      modifies this
      ensures Valid() && old(events) <= events && Growing(old(msgCh), old(accepted))
      ensures ok == schedule(old(tick)).ok
      ensures written == old(written) + [M.Write(old(batch), ok, final)]
      ensures sendFailed == old(sendFailed) + if ok then 0 else |old(batch)|
      ensures deadLetters == old(deadLetters) && dlqFailed == old(dlqFailed)
      ensures if !ok && cfg.hasDlq then phase == DeadLettering(old(phase).resume) && batch == old(batch)
              else phase == Resumed(old(phase).resume) && batch == []
      ensures tick == old(tick) + 1 && Ran(old(View()), TurnStep, schedule, old(tick), View(), tick)
    {
      var t := Yield();
      ok := t.ok;
      CountWrite(final, ok);
      OneTurn(old(View()), TurnStep, schedule, old(tick));
    }

    /** The broker has answered the main write. */
    method CountWrite(final: bool, ok: bool)
      requires Valid() && phase.Writing? && final == (phase.resume == ToExit)
      modifies this`events, this`batch, this`phase, this`sendFailed, this`dlqSent, this`written
      ensures Valid() && old(events) <= events
      ensures View() == Step(old(View()), WriteResult(ok))
    {
      ghost var before, resume := View(), phase.resume;
      written := written + [M.Write(batch, ok, final)];
      if ok {
        batch, phase := [], Resumed(resume);
      } else {
        sendFailed := sendFailed + |batch|;
        if cfg.hasDlq {
          dlqSent := dlqSent + 1;
          phase := DeadLettering(resume);
        } else {
          batch, phase := [], Resumed(resume);
        }
      }
      Record(WriteResult(ok), before);
    }

    /** Offers the failed batch to the dead-letter topic, and forgets it. */
    method WriteToDLQ()
      requires Valid() && phase.DeadLettering?
      modifies this
      ensures Valid() && old(events) <= events && Growing(old(msgCh), old(accepted))
      ensures phase == Resumed(old(phase).resume) && batch == []
      ensures deadLetters == old(deadLetters) + [old(batch)]
      ensures dlqFailed == old(dlqFailed) + if schedule(old(tick)).ok then 0 else 1
      ensures written == old(written) && sendFailed == old(sendFailed)
      ensures tick == old(tick) + 1 && Ran(old(View()), TurnStep, schedule, old(tick), View(), tick)
    {
      var t := Yield();
      CountOffer(t.ok);
      OneTurn(old(View()), TurnStep, schedule, old(tick));
    }

    /** The broker has answered the offer. */
    method CountOffer(ok: bool)
      requires Valid() && phase.DeadLettering?
      modifies this`events, this`batch, this`phase, this`dlqFailed, this`deadLetters
      ensures Valid() && old(events) <= events
      ensures View() == Step(old(View()), DlqResult(ok))
    {
      ghost var before, resume := View(), phase.resume;
      deadLetters := deadLetters + [batch];
      if !ok {
        dlqFailed := dlqFailed + 1;
      }
      batch, phase := [], Resumed(resume);
      Record(DlqResult(ok), before);
    }

    /** The oldest message of `queue` has gone from the channel into the batch. */
    ghost predicate HasTaken(was: seq<Message>, queue: seq<Message>)
      requires queue != []
      reads this`batch, this`msgCh
    {
      batch == was + [queue[0]] && msgCh == queue[1..]
    }

    ghost predicate IsLeft(was: seq<Message>, queue: seq<Message>)
      reads this`batch, this`msgCh
    {
      batch == was && msgCh == queue
    }

    /** Takes the oldest message from the channel into the batch. */
    method Take(ghost draining: bool) returns (full: bool)
      requires Valid() && phase == (if draining then Draining else Selecting) && msgCh != []
      modifies this`msgCh, this`batch, this`phase, this`events
      ensures Valid() && old(events) <= events
      ensures HasTaken(old(batch), old(msgCh))
      ensures full == (|batch| >= cfg.batchSize)
      ensures View() == Step(old(View()), TakeMessage)
    {
      ghost var before := View();
      batch := batch + [msgCh[0]];
      msgCh := msgCh[1..];
      full := |batch| >= cfg.batchSize;
      if !draining && full {
        phase := Writing(ToSelect);
      }
      Record(TakeMessage, before);
    }

    /** The loop notices the cancellation, that the channel is empty, or a tick. */
    ghost method Notice(e: Event, next: Phase)
      requires Valid() && Enabled(View(), e) && (e == SeeDone || e == SeeEmpty || e == Tick)
      requires next == Step(View(), e).phase
      modifies this`phase, this`events
      ensures Valid() && old(events) <= events && View() == Step(old(View()), e)
    {
      ghost var before := View();
      phase := next;
      Record(e, before);
    }

    /** What the other goroutines leave the sender when turn `tick` is due. */
    ghost function Ready(): State
      reads this
    {
      OtherSteps(View(), schedule(tick).others)
    }

    /** The batch that has to be flushed after the turn that is due. */
    ghost function NextDue(): seq<Message>
      reads this
    {
      Due(Ready(), schedule(tick).choice)
    }

    /** The select of sendLoop: takes the ready case that was picked, if any. */
    method Select() returns (done: bool, due: bool)
      requires Valid() && phase == Selecting
      modifies this
      ensures Valid() && old(events) <= events && written == old(written)
      ensures phase == if due then Writing(ToSelect) else if done then Draining else Selecting
      ensures due == (old(NextDue()) != []) && (due ==> !done && batch == old(NextDue()))
      ensures due == ((schedule(old(tick)).choice == PickMessage && old(Ready()).queue != []
                       && |old(batch)| + 1 >= cfg.batchSize)
                      || (schedule(old(tick)).choice == PickTick && old(batch) != []))
      ensures old(Ready()).phase == Selecting && old(Ready()).batch == old(batch)
      ensures var r, choice := old(Ready()), schedule(old(tick)).choice;
        && (done <==> choice == PickDone && r.cancelled)
        && if choice == PickMessage && r.queue != [] then HasTaken(old(batch), r.queue) else IsLeft(old(batch), r.queue)
      ensures tick == old(tick) + 1 && Ran(old(View()), TurnStep, schedule, old(tick), View(), tick)
    {
      var t := Yield();
      done, due := false, false;
      if t.choice == PickDone && cancelled {
        Notice(SeeDone, Draining);
        done := true;
      } else if t.choice == PickMessage && msgCh != [] {
        due := Take(false);
      } else if t.choice == PickTick && batch != [] {
        Notice(Tick, Writing(ToSelect));
        due := true;
      }
      OneTurn(old(View()), TurnStep, schedule, old(tick));
    }

    /** The select of the drain loop: a message if there is one, otherwise the loop is over. */
    method Drain() returns (over: bool, due: bool)
      requires Valid() && phase == Draining
      modifies this
      ensures Valid() && old(events) <= events && written == old(written)
      ensures phase == if due then Writing(ToExit) else if over then Exited else Draining
      ensures due == (old(NextDue()) != []) && (due ==> over && batch == old(NextDue()))
      ensures old(Ready()).phase == Draining && old(Ready()).batch == old(batch)
      ensures var r := old(Ready());
        && (over <==> r.queue == [])
        && if over then IsLeft(old(batch), []) else HasTaken(old(batch), r.queue)
      ensures tick == old(tick) + 1 && Ran(old(View()), TurnStep, schedule, old(tick), View(), tick)
    {
      var t := Yield();
      over, due := msgCh == [], false;
      if over {
        due := batch != [];
        Notice(SeeEmpty, if batch == [] then Exited else Writing(ToExit));
      } else {
        var _ := Take(true);
      }
      OneTurn(old(View()), TurnStep, schedule, old(tick));
    }

    /** The messages have gone out in one write, and nothing is left of them. */
    ghost predicate HasWritten(was: seq<M.Write>, messages: seq<Message>)
      reads this`batch, this`written
    {
      batch == [] && |written| == |was| + 1 && was <= written && written[|was|].messages == messages
    }

    /** What is written if a batch is due, and nothing otherwise. */
    ghost function WrittenIf(due: seq<Message>, ok: bool, final: bool): seq<M.Write> {
      if due == [] then [] else [M.Write(due, ok, final)]
    }

    /** One round of the outer loop of sendLoop; done says that the cancellation was seen. The
        message case takes the oldest message and writes the batch exactly if that fills it; a tick
        writes what there is. */
    method SelectOnce() returns (done: bool)
      requires Valid() && phase == Selecting
      modifies this
      ensures Valid() && old(events) <= events
      ensures phase == if done then Draining else Selecting
      ensures written == old(written) + WrittenIf(old(NextDue()), schedule(old(tick) + 1).ok, false)
      ensures var r, choice := old(Ready()), schedule(old(tick)).choice;
        && (done <==> choice == PickDone && r.cancelled)
        && if choice == PickMessage && r.queue != [] then
             if |old(batch)| + 1 < cfg.batchSize then HasTaken(old(batch), r.queue) && written == old(written)
             else HasWritten(old(written), old(batch) + [r.queue[0]]) && r.queue[1..] <= msgCh
           else if choice == PickTick && old(batch) != []
           then HasWritten(old(written), old(batch)) && r.queue <= msgCh
           else IsLeft(old(batch), r.queue) && written == old(written)
      ensures old(tick) < tick && Ran(old(View()), TurnStep, schedule, old(tick), View(), tick)
    {
      var due;
      done, due := Select();
      if due {
        ghost var mid := View();
        Flush(false);
        TurnsJoin(old(View()), TurnStep, schedule, old(tick), mid, old(tick) + 1, View(), tick);
      }
    }

    /** One round of the drain loop: no flush until the channel is empty. */
    method DrainOnce() returns (over: bool)
      requires Valid() && phase == Draining
      modifies this
      ensures Valid() && old(events) <= events
      ensures phase == if over then Exited else Draining
      ensures written == old(written) + WrittenIf(old(NextDue()), schedule(old(tick) + 1).ok, true)
      ensures var r := old(Ready());
        && (over <==> r.queue == [])
        && if !over then HasTaken(old(batch), r.queue) && written == old(written)
           else if old(batch) != [] then HasWritten(old(written), old(batch))
           else batch == [] && written == old(written)
      ensures old(tick) < tick && Ran(old(View()), TurnStep, schedule, old(tick), View(), tick)
    {
      var due;
      over, due := Drain();
      if due {
        ghost var mid := View();
        Flush(true);
        TurnsJoin(old(View()), TurnStep, schedule, old(tick), mid, old(tick) + 1, View(), tick);
      }
    }

    /** One round of sendLoop. */
    method LoopOnce(draining: bool, ghost s: State, ghost from: nat) returns (drain: bool, over: bool)
      requires Valid() && phase == if draining then Draining else Selecting
      requires from <= tick && Ran(s, TurnStep, schedule, from, View(), tick)
      modifies this
      ensures Valid() && old(events) <= events
      ensures phase == if over then Exited else if drain then Draining else Selecting
      ensures old(tick) < tick && Ran(s, TurnStep, schedule, from, View(), tick)
    {
      drain, over := true, false;
      if draining {
        over := DrainOnce();
      } else {
        drain := SelectOnce();
      }
      TurnsJoin(s, TurnStep, schedule, from, old(View()), old(tick), View(), tick);
    }

    /** sendLoop, for any number of turns. However the turns fall, the sender does in each what is
        due, and no message is lost on the way. */
    method SendLoop(turns: nat)
      requires Valid() && phase == Selecting
      modifies this
      ensures Valid() && old(events) <= events
      ensures Ran(old(View()), TurnStep, schedule, old(tick), View(), tick)
      ensures phase == Exited || (old(tick) + turns <= tick && (phase == Selecting || phase == Draining))
      ensures Flatten(Messages(written)) + batch + msgCh == accepted
      ensures sendFailed == |Flatten(FailedBatches(written))|
      ensures deadLetters == if cfg.hasDlq then FailedBatches(written) else []
      ensures phase == Exited ==> batch == []
      ensures RanOnTime(old(View()), schedule, old(tick), View(), tick)
    {
      KnowInvariant();
      ghost var was := View();
      var left, draining, over := turns, false, false;
      NoTurn(was, TurnStep, schedule, tick);
      while left > 0 && !over
        invariant Valid() && old(events) <= events
        invariant phase == if over then Exited else if draining then Draining else Selecting
        invariant old(tick) + turns <= tick + left
        invariant Ran(was, TurnStep, schedule, old(tick), View(), tick)
      {
        left := left - 1;
        draining, over := LoopOnce(draining, was, old(tick));
      }
      MessagesAreConserved(cfg, events, View());
      assert deadLetters + [] == deadLetters;
      KnowInvariant();
      EveryRunIsOnTime(was, schedule, old(tick), View(), tick);
    }
  }
}
