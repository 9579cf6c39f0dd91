/** The Kafka producer as a state machine (reader_modules/mod_kafka/kafka_producer.go), with the
    goroutines that run Update (reader_modules/mod_kafka/mod_kafka.go) sending at any moment. A write
    to Kafka or to the dead-letter topic either succeeds or fails. */
module KafkaMachine {
  import opened Sequences

  /** A message; its content plays no part. */
  type Message = seq<int>

  datatype Config = Config(batchSize: nat, hasDlq: bool) {
    predicate Valid() {
      batchSize >= 1
    }

    /** The capacity of msgCh. */
    function Capacity(): nat {
      2 * batchSize
    }
  }

  datatype Resume = ToSelect | ToExit

  datatype Phase =
    | Selecting
    | Draining
    | Writing(resume: Resume)
    | DeadLettering(resume: Resume)  // the main write failed, the batch goes to the dead letters
    | Exited

  datatype Write = Write(messages: seq<Message>, ok: bool, final: bool)

  /** The counters of module and producer, and how many Update goroutines are between two. */
  datatype Tally = Tally(
    receivedLogs: nat, receivedReq: nat, convertFailed: nat, sentToKafka: nat, chnFull: nat,
    converting: nat, failing: nat, rejecting: nat, finishing: nat)

  datatype State = State(
    cfg: Config,
    queue: seq<Message>,
    batch: seq<Message>,
    phase: Phase,
    cancelled: bool,
    accepted: seq<Message>,
    writes: seq<Write>,
    offered: seq<seq<Message>>,   // to the dead-letter topic
    sendFailed: nat,
    dlqSent: nat,
    dlqFailed: nat,
    tally: Tally)

  datatype Event =
    // an Update goroutine
    | Receive(isRequest: bool)
    | ConvertFails
    | CountFailed
    | Send(msg: Message)
    | CountFull
    | CountSent
    // Close
    | Cancel
    // the sending goroutine
    | TakeMessage
    | Tick
    | SeeDone
    | SeeEmpty
    | WriteResult(ok: bool)
    | DlqResult(ok: bool)

  function Init(cfg: Config): State {
    State(cfg, [], [], Selecting, false, [], [], [], 0, 0, 0, Tally(0, 0, 0, 0, 0, 0, 0, 0, 0))
  }

  function Resumed(resume: Resume): Phase {
    match resume case ToSelect => Selecting case ToExit => Exited
  }

  predicate Enabled(s: State, e: Event) {
    match e
    case Receive(_) => true
    case ConvertFails => s.tally.converting > 0
    case CountFailed => s.tally.failing > 0
    case Send(_) => s.tally.converting > 0
    case CountFull => s.tally.rejecting > 0
    case CountSent => s.tally.finishing > 0
    case Cancel => true
    case TakeMessage => (s.phase == Selecting || s.phase == Draining) && s.queue != []
    case Tick => s.phase == Selecting && s.batch != []
    case SeeDone => s.phase == Selecting && s.cancelled
    case SeeEmpty => s.phase == Draining && s.queue == []
    case WriteResult(_) => s.phase.Writing?
    case DlqResult(_) => s.phase.DeadLettering?
  }

  function StepReceive(s: State, isRequest: bool): State {
    var c, k := s.tally, if isRequest then 1 else 0;
    s.(tally := c.(receivedLogs := c.receivedLogs + 1, receivedReq := c.receivedReq + k,
                   converting := c.converting + k))
  }

  /** The non-blocking send. A message that finds the channel full is dropped; the caller counts
      it as sent all the same. */
  function StepSend(s: State, msg: Message): State
    requires s.tally.converting > 0
  {
    var c := s.tally.(converting := s.tally.converting - 1);
    if |s.queue| < s.cfg.Capacity() then
      s.(queue := s.queue + [msg], accepted := s.accepted + [msg], tally := c.(finishing := c.finishing + 1))
    else s.(tally := c.(rejecting := c.rejecting + 1))
  }

  /** Outside the drain loop a full batch is flushed at once. */
  function StepTake(s: State): State
    requires s.queue != []
  {
    var batch := s.batch + [s.queue[0]];
    s.(queue := s.queue[1..], batch := batch,
       phase := if s.phase == Selecting && |batch| >= s.cfg.batchSize then Writing(ToSelect) else s.phase)
  }

  function StepWrite(s: State, ok: bool): State
    requires s.phase.Writing?
  {
    var resume := s.phase.resume;
    var t := s.(writes := s.writes + [Write(s.batch, ok, resume == ToExit)]);
    if ok then t.(batch := [], phase := Resumed(resume))
    else
      var u := t.(sendFailed := s.sendFailed + |s.batch|);
      if s.cfg.hasDlq then u.(dlqSent := s.dlqSent + 1, phase := DeadLettering(resume))
      else u.(batch := [], phase := Resumed(resume))
  }

  function StepDlq(s: State, ok: bool): State
    requires s.phase.DeadLettering?
  {
    s.(offered := s.offered + [s.batch], dlqFailed := s.dlqFailed + if ok then 0 else 1,
       batch := [], phase := Resumed(s.phase.resume))
  }

  function Step(s: State, e: Event): State
    requires Enabled(s, e)
  {
    match e
    case Receive(isRequest) => StepReceive(s, isRequest)
    case ConvertFails =>
      s.(tally := s.tally.(converting := s.tally.converting - 1, failing := s.tally.failing + 1))
    case CountFailed =>
      s.(tally := s.tally.(failing := s.tally.failing - 1, convertFailed := s.tally.convertFailed + 1))
    case Send(msg) => StepSend(s, msg)
    case CountFull =>
      s.(tally := s.tally.(rejecting := s.tally.rejecting - 1, chnFull := s.tally.chnFull + 1,
                           finishing := s.tally.finishing + 1))
    case CountSent =>
      s.(tally := s.tally.(finishing := s.tally.finishing - 1, sentToKafka := s.tally.sentToKafka + 1))
    case Cancel => s.(cancelled := true)
    case TakeMessage => StepTake(s)
    case Tick => s.(phase := Writing(ToSelect))
    case SeeDone => s.(phase := Draining)
    case SeeEmpty => s.(phase := if s.batch == [] then Exited else Writing(ToExit))
    case WriteResult(ok) => StepWrite(s, ok)
    case DlqResult(ok) => StepDlq(s, ok)
  }

  /** A step of the sending goroutine, as opposed to Update and Close. */
  predicate OfSender(e: Event) {
    e.TakeMessage? || e.Tick? || e.SeeDone? || e.SeeEmpty? || e.WriteResult? || e.DlqResult?
  }

  /** A step of another goroutine than the sender's, if it can happen. */
  function OtherStep(s: State, e: Event): State {
    if !OfSender(e) && Enabled(s, e) then Step(s, e) else s
  }

  function OtherSteps(s: State, es: seq<Event>): State
    decreases |es|
  {
    if es == [] then s else OtherStep(OtherSteps(s, es[..|es| - 1]), es[|es| - 1])
  }

  ghost predicate IsRun(s: State, events: seq<Event>, t: State)
    decreases |events|
  {
    if events == [] then s == t
    else Enabled(s, events[0]) && IsRun(Step(s, events[0]), events[1..], t)
  }

  // ---------------------------------------------------------------- invariants

  function Messages(writes: seq<Write>): seq<seq<Message>> {
    seq(|writes|, i requires 0 <= i < |writes| => writes[i].messages)
  }

  /** The batches whose main write failed, in order. */
  function FailedBatches(writes: seq<Write>): seq<seq<Message>>
    decreases |writes|
  {
    if writes == [] then []
    else
      var n := |writes| - 1;
      FailedBatches(writes[..n]) + if writes[n].ok then [] else [writes[n].messages]
  }

  /** What is in the batch and has not been written yet. */
  function Unwritten(s: State): seq<Message> {
    if s.phase.DeadLettering? then [] else s.batch
  }

  /** What has failed and has not been offered to the dead-letter topic yet. */
  function Unoffered(s: State): seq<seq<Message>> {
    if s.phase.DeadLettering? then [s.batch] else []
  }

  ghost predicate Conserved(s: State) {
    Flatten(Messages(s.writes)) + Unwritten(s) + s.queue == s.accepted
  }

  ghost predicate Lettered(s: State) {
    && s.sendFailed == |Flatten(FailedBatches(s.writes))|
    && s.offered + Unoffered(s) == (if s.cfg.hasDlq then FailedBatches(s.writes) else [])
    && s.dlqSent == |s.offered| + |Unoffered(s)|
    && s.dlqFailed <= |s.offered|
  }

  ghost predicate Counted(s: State) {
    var c := s.tally;
    && c.receivedReq == c.convertFailed + c.sentToKafka
                      + c.converting + c.failing + c.rejecting + c.finishing
    && |s.accepted| + c.chnFull == c.sentToKafka + c.finishing
  }

  ghost predicate Sized(s: State) {
    && s.cfg.Valid()
    && |s.queue| <= s.cfg.Capacity()
    && (forall i :: 0 <= i < |s.writes| ==>
          1 <= |s.writes[i].messages| && (!s.writes[i].final ==> |s.writes[i].messages| <= s.cfg.batchSize))
    && match s.phase
       case Selecting => |s.batch| < s.cfg.batchSize
       case Draining => s.cancelled
       case Writing(resume) =>
         1 <= |s.batch| && (if resume == ToExit then s.cancelled else |s.batch| <= s.cfg.batchSize)
       case DeadLettering(resume) => 1 <= |s.batch| && s.cfg.hasDlq && (resume == ToExit ==> s.cancelled)
       case Exited => s.batch == [] && s.cancelled
  }

  ghost predicate Inv(s: State) {
    Conserved(s) && Lettered(s) && Counted(s) && Sized(s)
  }

  lemma InitHasInv(cfg: Config)
    requires cfg.Valid()
    ensures Inv(Init(cfg))
  {
    assert Messages([]) == [];
  }

  lemma WriteSnoc(writes: seq<Write>, w: Write)
    ensures Flatten(Messages(writes + [w])) == Flatten(Messages(writes)) + w.messages
    ensures FailedBatches(writes + [w]) == FailedBatches(writes) + if w.ok then [] else [w.messages]
    ensures |Flatten(FailedBatches(writes + [w]))|
         == |Flatten(FailedBatches(writes))| + if w.ok then 0 else |w.messages|
  {
    assert (writes + [w])[..|writes|] == writes;
    assert Messages(writes + [w]) == Messages(writes) + [w.messages];
    FlattenSnoc(Messages(writes), w.messages);
    if w.ok {
      assert FailedBatches(writes) + [] == FailedBatches(writes);
    } else {
      FlattenSnoc(FailedBatches(writes), w.messages);
    }
  }

  /** A step that leaves batch, writes and offers alone keeps what is said about them. */
  lemma SameWritesSameLetters(s: State, t: State)
    requires Lettered(s) && t.cfg == s.cfg && t.batch == s.batch && t.writes == s.writes && t.offered == s.offered
    requires t.phase.DeadLettering? == s.phase.DeadLettering?
    requires t.sendFailed == s.sendFailed && t.dlqSent == s.dlqSent && t.dlqFailed == s.dlqFailed
    ensures Lettered(t) && Unwritten(t) == Unwritten(s)
  {
    assert Unoffered(t) == Unoffered(s);
  }

  lemma SendKeepsConserved(s: State, msg: Message)
    requires Conserved(s) && s.tally.converting > 0
    ensures Conserved(StepSend(s, msg))
  {
    var front := Flatten(Messages(s.writes)) + Unwritten(s);
    assert front + (s.queue + [msg]) == (front + s.queue) + [msg];
  }

  lemma SendKeepsSized(s: State, msg: Message)
    requires Sized(s) && s.tally.converting > 0
    ensures Sized(StepSend(s, msg))
  {
    var t := StepSend(s, msg);
    assert t.writes == s.writes && t.phase == s.phase && t.batch == s.batch;
  }

  lemma SendKeepsCounted(s: State, msg: Message)
    requires Counted(s) && s.tally.converting > 0
    ensures Counted(StepSend(s, msg))
  {
  }

  lemma SendKeepsInv(s: State, msg: Message)
    requires Inv(s) && s.tally.converting > 0
    ensures Inv(StepSend(s, msg))
  {
    SendKeepsConserved(s, msg);
    SendKeepsSized(s, msg);
    SendKeepsCounted(s, msg);
    SameWritesSameLetters(s, StepSend(s, msg));
  }

  lemma TakeKeepsInv(s: State)
    requires Inv(s) && Enabled(s, TakeMessage)
    ensures Inv(StepTake(s))
  {
    assert Unoffered(StepTake(s)) == Unoffered(s) == [];
    var done, x := Flatten(Messages(s.writes)), [s.queue[0]];
    assert s.queue == x + s.queue[1..];
    assert done + (s.batch + x) + s.queue[1..] == done + s.batch + (x + s.queue[1..]);
  }

  lemma WriteKeepsLettered(s: State, ok: bool)
    requires Lettered(s) && Conserved(s) && s.phase.Writing?
    ensures Lettered(StepWrite(s, ok)) && Conserved(StepWrite(s, ok))
  {
    WriteSnoc(s.writes, Write(s.batch, ok, s.phase.resume == ToExit));
    assert s.offered + [] == s.offered;
    var done := Flatten(Messages(s.writes));
    assert done + s.batch + [] == done + s.batch;
  }

  lemma WriteKeepsSized(s: State, ok: bool)
    requires Sized(s) && s.phase.Writing?
    ensures Sized(StepWrite(s, ok))
  {
    var t := StepWrite(s, ok);
    assert t.writes[..|s.writes|] == s.writes;
    assert forall i :: 0 <= i < |s.writes| ==> t.writes[i] == s.writes[i];
  }

  lemma DlqKeepsInv(s: State, ok: bool)
    requires Inv(s) && s.phase.DeadLettering?
    ensures Inv(StepDlq(s, ok))
  {
    var t := StepDlq(s, ok);
    assert t.offered + Unoffered(t) == s.offered + Unoffered(s);
    assert Unwritten(t) == Unwritten(s) == [];
  }

  lemma StepKeepsConfig(s: State, e: Event)
    requires Enabled(s, e)
    ensures Step(s, e).cfg == s.cfg
  {
  }

  lemma WriteKeepsInv(s: State, ok: bool)
    requires Inv(s) && s.phase.Writing?
    ensures Inv(StepWrite(s, ok))
  {
    WriteKeepsLettered(s, ok);
    WriteKeepsSized(s, ok);
    assert StepWrite(s, ok).tally == s.tally;
  }

  lemma StepKeepsInv(s: State, e: Event)
    requires Inv(s) && Enabled(s, e)
    ensures Inv(Step(s, e))
  {
    match e
    case Send(msg) => SendKeepsInv(s, msg);
    case TakeMessage => TakeKeepsInv(s);
    case WriteResult(ok) => WriteKeepsInv(s, ok);
    case DlqResult(ok) => DlqKeepsInv(s, ok);
    case _ =>
      if OnlyCounts(e) {
        CountingKeepsInv(s, e);
      } else {
        SignalKeepsInv(s, e);
      }
  }

  /** A step of Update that only moves a counter. */
  predicate OnlyCounts(e: Event) {
    e.Receive? || e.ConvertFails? || e.CountFailed? || e.CountFull? || e.CountSent?
  }

  lemma CountingKeepsInv(s: State, e: Event)
    requires Inv(s) && Enabled(s, e) && OnlyCounts(e)
    ensures Inv(Step(s, e))
  {
    var t := Step(s, e);
    assert t == s.(tally := t.tally);
    SameWritesSameLetters(s, t);
  }

  /** Close, the ticker and the two ways the loop notices that it is over leave channel, batch and
      writes alone. */
  lemma SignalKeepsInv(s: State, e: Event)
    requires Inv(s) && Enabled(s, e) && (e.Cancel? || e.Tick? || e.SeeDone? || e.SeeEmpty?)
    ensures Inv(Step(s, e))
  {
    var t := Step(s, e);
    assert t == s.(phase := t.phase, cancelled := t.cancelled);
    SameWritesSameLetters(s, t);
  }

  lemma {:induction false} EveryRunKeepsInv(s: State, events: seq<Event>, t: State)
    requires Inv(s) && IsRun(s, events, t)
    ensures Inv(t) && t.cfg == s.cfg
    decreases |events|
  {
    if events != [] {
      StepKeepsInv(s, events[0]);
      StepKeepsConfig(s, events[0]);
      EveryRunKeepsInv(Step(s, events[0]), events[1..], t);
    }
  }

  // ---------------------------------------------------------------- whole runs

  /** In every reachable state: what was written, then the batch, then the channel are together
      the accepted messages in order, so each is in exactly one main write; SEND_KAFKA_FAILED is
      the number of messages in failed writes; each failed batch is offered whole, once and in
      order to the dead-letter topic if there is one, and nothing else ever is. */
  lemma MessagesAreConserved(cfg: Config, events: seq<Event>, t: State)
    requires cfg.Valid() && IsRun(Init(cfg), events, t)
    ensures Flatten(Messages(t.writes)) + Unwritten(t) + t.queue == t.accepted
    ensures t.sendFailed == |Flatten(FailedBatches(t.writes))|
    ensures t.offered + Unoffered(t) == if cfg.hasDlq then FailedBatches(t.writes) else []
    ensures t.dlqSent == |t.offered| + |Unoffered(t)|
  {
    InitHasInv(cfg);
    EveryRunKeepsInv(Init(cfg), events, t);
  }

  /** SENT_TO_KAFKA also counts what was dropped: with no Update under way, the messages accepted
      are SENT_TO_KAFKA less SENT_KAFKA_CHN_FULL. */
  lemma CountersAddUp(cfg: Config, events: seq<Event>, t: State)
    requires cfg.Valid() && IsRun(Init(cfg), events, t)
    requires var c := t.tally; c.converting == c.failing == c.rejecting == c.finishing == 0
    ensures |t.accepted| == t.tally.sentToKafka - t.tally.chnFull
    ensures t.tally.receivedReq == t.tally.convertFailed + t.tally.sentToKafka
  {
    InitHasInv(cfg);
    EveryRunKeepsInv(Init(cfg), events, t);
  }

  function Work(s: State): nat {
    4 * |s.queue|
    + match s.phase
      case Selecting => 2 + (if s.batch == [] then 0 else 3)
      case Draining => 1 + (if s.batch == [] then 0 else 3)
      case Writing(resume) => 2 + (if resume == ToSelect then 2 else 0)
      case DeadLettering(resume) => 1 + (if resume == ToSelect then 2 else 0)
      case Exited => 0
  }

  /** Every step of the sender leaves it less to do, and no other step but a Send adds to it. */
  lemma StepIsWork(s: State, e: Event)
    requires Enabled(s, e) && !e.Send?
    ensures Work(Step(s, e)) + (if OfSender(e) then 1 else 0) <= Work(s)
  {
  }

  /** After Close the sender always has a next step until it has returned. */
  lemma SenderCanGoOn(s: State)
    requires s.cancelled && s.phase != Exited
    ensures exists e :: OfSender(e) && Enabled(s, e)
  {
    match s.phase
    case Selecting => assert Enabled(s, SeeDone);
    case Draining => assert if s.queue == [] then Enabled(s, SeeEmpty) else Enabled(s, TakeMessage);
    case Writing(_) => assert Enabled(s, WriteResult(true));
    case DeadLettering(_) => assert Enabled(s, DlqResult(true));
    case Exited =>
  }

  ghost predicate Leaving(s: State) {
    match s.phase
    case Writing(resume) => resume == ToExit
    case DeadLettering(resume) => resume == ToExit
    case Exited => true
    case _ => false
  }

  ghost predicate NothingSent(events: seq<Event>) {
    forall i :: 0 <= i < |events| ==> !events[i].Send?
  }

  /** How many of the steps are the sender's. */
  function SenderSteps(events: seq<Event>): nat {
    if events == [] then 0 else (if OfSender(events[0]) then 1 else 0) + SenderSteps(events[1..])
  }

  lemma StepKeepsAccepted(s: State, e: Event)
    requires Enabled(s, e) && !e.Send? && (Leaving(s) ==> s.queue == [])
    ensures var t := Step(s, e);
      t.accepted == s.accepted && (Leaving(t) ==> t.queue == [])
  {
  }

  /** Shutdown drains: if nothing is sent any more, the sender returns after at most Work(s)
      steps of its own, and then every message accepted has been in a main write. Other goroutines
      may still count what they have done. */
  lemma {:induction false} ShutdownDrains(s: State, events: seq<Event>, t: State)
    requires Inv(s) && IsRun(s, events, t) && (Leaving(s) ==> s.queue == [])
    requires NothingSent(events)
    ensures SenderSteps(events) + Work(t) <= Work(s)
    ensures t.phase == Exited ==> Flatten(Messages(t.writes)) == s.accepted
    decreases |events|
  {
    if events != [] {
      StepIsWork(s, events[0]);
      StepKeepsInv(s, events[0]);
      StepKeepsAccepted(s, events[0]);
      ShutdownDrains(Step(s, events[0]), events[1..], t);
    } else {
      assert Flatten(Messages(t.writes)) + [] + [] == Flatten(Messages(t.writes));
    }
  }

  /** The largest write that can still come if nothing more is sent: a batch that is being written
      goes out alone, otherwise all that waits may go out together. */
  function Largest(s: State): nat {
    match s.phase
    case Writing(_) => if |s.batch| > |s.queue| then |s.batch| else |s.queue|
    case DeadLettering(_) => |s.queue|
    case _ => |s.batch| + |s.queue|
  }

  lemma StepKeepsLargest(s: State, e: Event)
    requires Enabled(s, e) && !e.Send?
    ensures var t := Step(s, e);
      && Largest(t) <= Largest(s) && s.writes <= t.writes
      && (forall i :: |s.writes| <= i < |t.writes| ==> |t.writes[i].messages| <= Largest(s))
  {
  }

  lemma {:induction false} WritesAreAtMostLargest(s: State, events: seq<Event>, t: State)
    requires IsRun(s, events, t) && NothingSent(events)
    ensures s.writes <= t.writes
    ensures forall i :: |s.writes| <= i < |t.writes| ==> |t.writes[i].messages| <= Largest(s)
    decreases |events|
  {
    if events != [] {
      var r := Step(s, events[0]);
      StepKeepsLargest(s, events[0]);
      WritesAreAtMostLargest(r, events[1..], t);
      assert forall i :: 0 <= i < |r.writes| ==> t.writes[i] == r.writes[i];
    }
  }

  /** The last flush is not limited by the batch size, but whenever Close comes, in the middle of a
      flush too: if nothing is sent after it, no write has more than 3 * batchSize - 1 messages. */
  lemma LastFlushIsBounded(s: State, events: seq<Event>, t: State)
    requires Inv(s) && !s.cancelled && IsRun(s, [Cancel] + events, t)
    requires NothingSent(events)
    ensures s.writes <= t.writes
    ensures forall i :: |s.writes| <= i < |t.writes| ==> |t.writes[i].messages| <= 3 * s.cfg.batchSize - 1
  {
    WritesAreAtMostLargest(s, [Cancel] + events, t);
  }

  lemma {:induction false} RunsJoin(s: State, a: seq<Event>, t: State, b: seq<Event>, u: State)
    requires IsRun(s, a, t) && IsRun(t, b, u)
    ensures IsRun(s, a + b, u)
    decreases |a|
  {
    if a == [] {
      assert a + b == b;
    } else {
      RunsJoin(Step(s, a[0]), a[1..], t, b, u);
      assert (a + b)[1..] == a[1..] + b;
    }
  }

  /** Update gets some messages into the channel. */
  lemma {:induction false} SendMany(s: State, msgs: seq<Message>) returns (events: seq<Event>, t: State)
    requires |s.queue| + |msgs| <= s.cfg.Capacity()
    ensures IsRun(s, events, t)
    ensures t == s.(queue := s.queue + msgs, accepted := t.accepted, tally := t.tally)
    decreases |msgs|
  {
    if msgs == [] {
      assert s.queue + msgs == s.queue;
      events, t := [], s;
    } else {
      var received := Step(s, Receive(true));
      var sent := Step(received, Send(msgs[0]));
      var later;
      later, t := SendMany(sent, msgs[1..]);
      RunCons(received, Send(msgs[0]), later, t);
      RunCons(s, Receive(true), [Send(msgs[0])] + later, t);
      events := [Receive(true)] + ([Send(msgs[0])] + later);
      assert sent.queue + msgs[1..] == s.queue + msgs;
    }
  }

  /** The sender takes messages without filling a batch, or draining. */
  lemma {:induction false} TakeMany(s: State, k: nat) returns (events: seq<Event>, t: State)
    requires k <= |s.queue|
    requires s.phase == Draining || (s.phase == Selecting && |s.batch| + k < s.cfg.batchSize)
    ensures IsRun(s, events, t)
    ensures t == s.(queue := s.queue[k..], batch := s.batch + s.queue[..k])
    decreases k
  {
    if k == 0 {
      assert s.queue[0..] == s.queue && s.batch + s.queue[..0] == s.batch;
      events, t := [], s;
    } else {
      var taken := Step(s, TakeMessage);
      var later;
      later, t := TakeMany(taken, k - 1);
      RunCons(s, TakeMessage, later, t);
      events := [TakeMessage] + later;
      assert s.queue[..k] == [s.queue[0]] + taken.queue[..k - 1];
      assert taken.queue[k - 1..] == s.queue[k..];
    }
  }

  lemma RunCons(s: State, e: Event, events: seq<Event>, t: State)
    requires Enabled(s, e) && IsRun(Step(s, e), events, t)
    ensures IsRun(s, [e] + events, t)
  {
    assert ([e] + events)[1..] == events;
  }

  lemma RunOfTwo(s: State, e: Event, e': Event)
    requires Enabled(s, e) && Enabled(Step(s, e), e')
    ensures IsRun(s, [e] + ([e'] + []), Step(Step(s, e), e'))
  {
    RunCons(Step(s, e), e', [], Step(Step(s, e), e'));
    RunCons(s, e, [e'] + [], Step(Step(s, e), e'));
  }

  /** The run up to the moment Close is called: one batch short of full, and a full channel. */
  lemma FillUp(cfg: Config, msgs: seq<Message>) returns (events: seq<Event>, t: State)
    requires cfg.Valid() && |msgs| == 3 * cfg.batchSize - 1
    ensures IsRun(Init(cfg), events, t)
    ensures t.phase == Selecting && t.cfg == cfg && t.writes == []
    ensures t.batch + t.queue == msgs
  {
    var k := cfg.batchSize - 1;
    var e1, s1 := SendMany(Init(cfg), msgs[..k]);
    var e2, s2 := TakeMany(s1, k);
    var e3;
    e3, t := SendMany(s2, msgs[k..]);
    RunsJoin(Init(cfg), e1, s1, e2, s2);
    RunsJoin(Init(cfg), e1 + e2, s2, e3, t);
    events := e1 + e2 + e3;
    assert s1.queue == msgs[..k] && s2.batch == msgs[..k] && t.queue == msgs[k..];
  }

  /** Close: everything that waits goes out in one write. */
  lemma CloseDown(s: State) returns (events: seq<Event>, t: State)
    requires s.phase == Selecting && s.batch + s.queue != []
    ensures IsRun(s, events, t)
    ensures t.phase == Exited && t.writes == s.writes + [Write(s.batch + s.queue, true, true)]
  {
    var draining := Step(Step(s, Cancel), SeeDone);
    RunOfTwo(s, Cancel, SeeDone);
    var taking, full := TakeMany(draining, |s.queue|);
    assert full.batch == s.batch + s.queue && full.queue == [];
    t := Step(Step(full, SeeEmpty), WriteResult(true));
    RunOfTwo(full, SeeEmpty, WriteResult(true));
    RunsJoin(draining, taking, full, [SeeEmpty] + ([WriteResult(true)] + []), t);
    events := ([Cancel] + ([SeeDone] + [])) + (taking + ([SeeEmpty] + ([WriteResult(true)] + [])));
    RunsJoin(s, [Cancel] + ([SeeDone] + []), draining, taking + ([SeeEmpty] + ([WriteResult(true)] + [])), t);
  }

  /** The bound is reached: any 3 * batchSize - 1 messages can end up in one write. */
  lemma LastFlushBoundIsReached(cfg: Config, msgs: seq<Message>)
    requires cfg.Valid() && |msgs| == 3 * cfg.batchSize - 1
    ensures exists events, t ::
      IsRun(Init(cfg), events, t) && t.phase == Exited && t.writes == [Write(msgs, true, true)]
  {
    var filling, s := FillUp(cfg, msgs);
    var closing, t := CloseDown(s);
    RunsJoin(Init(cfg), filling, s, closing, t);
  }
}
