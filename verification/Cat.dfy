/** cmd/bfe-pblog-tool/cat/pb_cat.go: one goroutine reads the file in pieces and sends them over a
    channel of 1024 slots, another receives them, parses them and calls back. One step per
    communication or system call; the file may grow while it is read; no read fails. */
module Cat {
  import opened Sequences
  import opened Framing
  import opened PbParse

  const SLOTS: nat := 1024
  const READ_SIZE: nat := 8192

  datatype Reader = Reading | Holding(piece: Bytes) | ReaderDone

  datatype State = State(
    framer: Framer,
    file: Bytes,
    offset: nat,
    reader: Reader,
    channel: seq<Bytes>,
    closed: bool,
    parserDone: bool,
    buffer: Bytes,
    callbacks: seq<seq<Bytes>>)

  datatype Event =
    | Grow(data: Bytes)
    | Read(amount: nat)
    | Send
    | Receive

  function Init(framer: Framer, file: Bytes): State {
    State(framer, file, 0, Reading, [], false, false, [], [])
  }

  function PieceSize(amount: nat, available: nat): (n: nat)
    requires available > 0
    ensures 1 <= n <= available && n <= READ_SIZE
  {
    var most := if available < READ_SIZE then available else READ_SIZE;
    if amount < 1 then 1 else if amount > most then most else amount
  }

  predicate Enabled(s: State, e: Event) {
    match e
    case Grow(_) => true
    case Read(_) => s.reader == Reading
    case Send => s.reader.Holding? && |s.channel| < SLOTS
    case Receive => !s.parserDone && (s.channel != [] || s.closed)
  }

  function Step(s: State, e: Event): State
    requires Enabled(s, e)
  {
    match e
    case Grow(data) => s.(file := s.file + data)
    case Read(amount) =>
      if s.offset >= |s.file| then s.(reader := ReaderDone, closed := true)
      else
        var n := PieceSize(amount, |s.file| - s.offset);
        s.(reader := Holding(s.file[s.offset..s.offset + n]), offset := s.offset + n)
    case Send => s.(reader := Reading, channel := s.channel + [s.reader.piece])
    case Receive =>
      if s.channel == [] then s.(parserDone := true)
      else
        var parsed := s.framer.parse(s.buffer + s.channel[0]);
        s.(channel := s.channel[1..], buffer := parsed.rest, callbacks := s.callbacks + [parsed.frames])
  }

  ghost predicate IsRun(s: State, events: seq<Event>, t: State)
    decreases |events|
  {
    if events == [] then s == t
    else Enabled(s, events[0]) && IsRun(Step(s, events[0]), events[1..], t)
  }

  function Held(s: State): Bytes {
    match s.reader case Holding(piece) => piece case _ => []
  }

  /** Bytes read are bytes parsed, then what is in the channel, then what waits to be sent. */
  ghost predicate Inv(s: State, size: nat, parsed: Bytes) {
    && s.framer.Lawful()
    && size <= |s.file| && s.offset <= |s.file|
    && s.file[..s.offset] == parsed + Flatten(s.channel) + Held(s)
    && Flatten(s.callbacks) == s.framer.Frames(parsed)
    && s.buffer == s.framer.Rest(parsed)
    && |s.channel| <= SLOTS
    && s.closed == s.reader.ReaderDone?
    && (s.closed ==> size <= s.offset)
    && (s.parserDone ==> s.closed && s.channel == [])
  }

  lemma InitHasInv(f: Framer, file: Bytes)
    requires f.Lawful()
    ensures Inv(Init(f, file), |file|, [])
  {
    f.NothingToParse();
  }

  /** What the parser has parsed after a step. */
  function ParsedAfter(s: State, e: Event, parsed: Bytes): Bytes {
    if e.Receive? && s.channel != [] then parsed + s.channel[0] else parsed
  }

  lemma ReadKeepsInv(s: State, amount: nat, size: nat, parsed: Bytes)
    requires Inv(s, size, parsed) && Enabled(s, Read(amount))
    ensures Inv(Step(s, Read(amount)), size, parsed)
  {
    var t := Step(s, Read(amount));
    if s.offset < |s.file| {
      assert t.file[..t.offset] == s.file[..s.offset] + Held(t);
    }
  }

  lemma SendKeepsInv(s: State, size: nat, parsed: Bytes)
    requires Inv(s, size, parsed) && Enabled(s, Send)
    ensures Inv(Step(s, Send), size, parsed)
  {
    var sent, piece := Flatten(s.channel), s.reader.piece;
    FlattenSnoc(s.channel, piece);
    assert parsed + sent + piece == parsed + (sent + piece);
  }

  lemma ReceiveKeepsInv(s: State, size: nat, parsed: Bytes)
    requires Inv(s, size, parsed) && Enabled(s, Receive)
    ensures Inv(Step(s, Receive), size, ParsedAfter(s, Receive, parsed))
  {
    if s.channel != [] {
      var piece, later := s.channel[0], Flatten(s.channel[1..]);
      s.framer.Append(parsed, piece);
      FlattenSnoc(s.callbacks, s.framer.Frames(s.buffer + piece));
      assert parsed + (piece + later) == (parsed + piece) + later;
    }
  }

  lemma StepKeepsInv(s: State, e: Event, size: nat, parsed: Bytes)
    requires Inv(s, size, parsed) && Enabled(s, e)
    ensures Inv(Step(s, e), size, ParsedAfter(s, e, parsed))
  {
    match e
    case Grow(data) => assert (s.file + data)[..s.offset] == s.file[..s.offset];
    case Read(amount) => ReadKeepsInv(s, amount, size, parsed);
    case Send => SendKeepsInv(s, size, parsed);
    case Receive => ReceiveKeepsInv(s, size, parsed);
  }

  // ---------------------------------------------------------------- every schedule

  lemma {:induction false} RunKeepsInv(s: State, events: seq<Event>, t: State, size: nat, parsed: Bytes)
      returns (all: Bytes)
    requires Inv(s, size, parsed) && IsRun(s, events, t)
    ensures Inv(t, size, all) && t.framer == s.framer
    decreases |events|
  {
    all := parsed;
    if events != [] {
      StepKeepsInv(s, events[0], size, parsed);
      all := RunKeepsInv(Step(s, events[0]), events[1..], t, size, ParsedAfter(s, events[0], parsed));
    }
  }

  /** In every reachable state: what has been printed and what is still buffered is one parse of
      the beginning of the file, and the rest of what was read is on its way, in order. */
  lemma EveryScheduleParsesAPrefix(f: Framer, file: Bytes, events: seq<Event>, t: State) returns (parsed: Bytes)
    requires f.Lawful() && IsRun(Init(f, file), events, t)
    ensures t.offset <= |t.file| && t.file[..t.offset] == parsed + Flatten(t.channel) + Held(t)
    ensures Flatten(t.callbacks) == f.Frames(parsed) && t.buffer == f.Rest(parsed)
    ensures |t.channel| <= SLOTS
  {
    InitHasInv(f, file);
    parsed := RunKeepsInv(Init(f, file), events, t, |file|, []);
  }

  /** When both goroutines are done, exactly the frames of what was read have been printed, each
      once and in order, and that is at least everything the file held at the start. */
  lemma FinishedCatPrintsTheFile(f: Framer, file: Bytes, events: seq<Event>, t: State)
    requires f.Lawful() && IsRun(Init(f, file), events, t)
    requires t.reader.ReaderDone? && t.parserDone
    ensures |file| <= t.offset <= |t.file|
    ensures Flatten(t.callbacks) == f.Frames(t.file[..t.offset])
  {
    InitHasInv(f, file);
    var parsed := RunKeepsInv(Init(f, file), events, t, |file|, []);
    assert Flatten(t.channel) == [] && Held(t) == [];
    assert t.file[..t.offset] == parsed;
  }

  /** No deadlock: until both goroutines are done, one of them can go on. */
  lemma SomeoneCanGoOn(s: State)
    requires |s.channel| <= SLOTS && s.closed == s.reader.ReaderDone?
    requires !(s.reader.ReaderDone? && s.parserDone)
    requires s.parserDone ==> s.closed
    ensures Enabled(s, Read(1)) || Enabled(s, Send) || Enabled(s, Receive)
  {
  }

  /** Work left: every unread byte, every piece on its way, and each goroutine's last step. */
  function Work(s: State): nat {
    (if s.offset < |s.file| then 3 * (|s.file| - s.offset) else 0)
    + (match s.reader case Reading => 1 case Holding(_) => 3 case ReaderDone => 0)
    + |s.channel|
    + (if s.parserDone then 0 else 1)
  }

  lemma EveryStepIsWork(s: State, e: Event)
    requires Enabled(s, e) && !e.Grow?
    ensures Work(Step(s, e)) < Work(s)
  {
  }

  /** While the file does not grow, no schedule runs for ever. */
  lemma {:induction false} EveryScheduleEnds(s: State, events: seq<Event>, t: State)
    requires IsRun(s, events, t)
    requires forall i :: 0 <= i < |events| ==> !events[i].Grow?
    ensures |events| + Work(t) <= Work(s)
    decreases |events|
  {
    if events != [] {
      EveryStepIsWork(s, events[0]);
      EveryScheduleEnds(Step(s, events[0]), events[1..], t);
    }
  }

  /** What the scheduler lets happen next: its choice if that can happen, otherwise anything
      that can. */
  function Pick(s: State, choice: Event): (e: Event)
    requires Enabled(s, Read(1)) || Enabled(s, Send) || Enabled(s, Receive)
    ensures Enabled(s, e) && !e.Grow?
  {
    if !choice.Grow? && Enabled(s, choice) then choice
    else if Enabled(s, Read(1)) then Read(1)
    else if Enabled(s, Send) then Send
    else Receive
  }

  /** The whole program on a file that does not change, under an arbitrary scheduler. */
  method PblogCat<R>(f: Framer, decode: Bytes -> Option<R>, file: Bytes, schedule: nat -> Event)
      returns (lines: seq<R>)
    requires f.Lawful()
    ensures lines == Records(f, decode, file)
  {
    var s := Init(f, file);
    InitHasInv(f, file);
    ghost var parsed := [];
    var tick := 0;
    lines := [];
    while !(s.reader.ReaderDone? && s.parserDone)
      invariant Inv(s, |file|, parsed) && s.file == file && s.framer == f
      invariant lines == FilterMap(decode, Flatten(s.callbacks))
      decreases Work(s)
    {
      SomeoneCanGoOn(s);
      var e := Pick(s, schedule(tick));
      StepKeepsInv(s, e, |file|, parsed);
      EveryStepIsWork(s, e);
      parsed := ParsedAfter(s, e, parsed);
      if e.Receive? && s.channel != [] {
        var frames := f.Frames(s.buffer + s.channel[0]);
        FlattenSnoc(s.callbacks, frames);
        FilterMapAppend(decode, Flatten(s.callbacks), frames);
        lines := lines + FilterMap(decode, frames);
      }
      s := Step(s, e);
      tick := tick + 1;
    }
    assert Flatten(s.channel) == [] && Held(s) == [];
    assert file == file[..s.offset] == parsed;
  }
}
