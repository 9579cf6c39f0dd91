/** What the daemon delivers across rotations, for every run of the reader machine. */
module Rotation {
  import opened Sequences
  import opened Framing
  import opened FileSystem
  import opened ReaderMachine
  import B2log

  /** No read fails. Opening, seeking and stat may still fail. */
  ghost predicate ReadsSucceed(events: seq<Event>) {
    forall i :: 0 <= i < |events| ==>
      match events[i]
      case Read(fault, _) => !fault
      case ReadAll(fault) => !fault
      case _ => true
  }

  ghost predicate AllDrained(spans: seq<Span>) {
    forall i :: 0 <= i < |spans| ==> spans[i].drained
  }

  lemma StepClosesByDraining(s: State, e: Event)
    requires (e.Read? || e.ReadAll? ==> !e.fault)
    requires AllDrained(s.closed)
    ensures AllDrained(Step(s, e).closed)
  {
  }

  lemma {:induction false} OnlyRotationsCloseFiles(f: Framer, fs: FileSystem, fromBegin: bool, events: seq<Event>)
    requires ReadsSucceed(events)
    ensures AllDrained(Run(Init(f, fs, fromBegin), events).closed)
    decreases |events|
  {
    if events != [] {
      var last := events[|events| - 1];
      OnlyRotationsCloseFiles(f, fs, fromBegin, events[..|events| - 1]);
      if last.Read? || last.ReadAll? {
        assert !last.fault;
      }
      StepClosesByDraining(Run(Init(f, fs, fromBegin), events[..|events| - 1]), last);
    }
  }

  /** The frames of whole files, file after file; only the first is read from `start`. */
  function Whole(f: Framer, fs: FileSystem, entered: seq<nat>, start: nat): seq<Bytes> {
    if entered == [] then []
    else
      var n := |entered| - 1;
      Whole(f, fs, entered[..n], start) + f.Frames(From(fs, entered[n], if n == 0 then start else 0))
  }

  /** A file from byte `at` to its end. */
  function From(fs: FileSystem, inode: nat, at: nat): Bytes {
    Window(fs, inode, at, |Content(fs, inode)|)
  }

  /** The specification of the daemon: every file that was entered, whole and in order, except
      that the first begins at `start` and the last has been read up to `upTo`. */
  function Delivery(f: Framer, fs: FileSystem, entered: seq<nat>, start: nat, upTo: nat): seq<Bytes>
    requires entered != []
  {
    var n := |entered| - 1;
    Whole(f, fs, entered[..n], start) + f.Frames(Window(fs, entered[n], if n == 0 then start else 0, upTo))
  }

  function Inodes(spans: seq<Span>): seq<nat> {
    seq(|spans|, i requires 0 <= i < |spans| => spans[i].inode)
  }

  ghost predicate Increasing(xs: seq<nat>) {
    forall i, j :: 0 <= i < j < |xs| ==> xs[i] < xs[j]
  }

  lemma {:induction false} DrainedSpansAreWholeFiles(f: Framer, fs: FileSystem, fromBegin: bool, spans: seq<Span>)
    requires AllFit(fs, spans) && InOrder(fromBegin, spans)
    requires AllDrained(spans)
    ensures SpanFrames(f, fs, spans) == Whole(f, fs, Inodes(spans), if spans == [] then 0 else spans[0].start)
    decreases |spans|
  {
    if spans != [] {
      var n := |spans| - 1;
      DrainedSpansAreWholeFiles(f, fs, fromBegin, spans[..n]);
      assert Inodes(spans)[..n] == Inodes(spans[..n]);
      assert SpanFits(fs, spans[n]);
      if n > 0 {
        assert Follows(fromBegin, spans[n - 1], spans[n]);
        assert spans[..n][0] == spans[0];
      }
    }
  }

  lemma {:induction false} DrainedInodesIncrease(fromBegin: bool, spans: seq<Span>, i: nat, j: nat)
    requires InOrder(fromBegin, spans)
    requires i < j < |spans|
    requires forall k :: 0 <= k < |spans| - 1 ==> spans[k].drained
    ensures spans[i].inode < spans[j].inode
    decreases j
  {
    assert Follows(fromBegin, spans[j - 1], spans[j]);
    if i < j - 1 {
      DrainedInodesIncrease(fromBegin, spans, i, j - 1);
    }
  }

  /** Rotation loses and repeats nothing. In every run in which no read fails, what has been
      delivered is the frames of each file the reader opened: the first one from where it was
      entered, every later one from its first byte, every one but the last to its very end, and
      no file twice. A frame cut off at the end of a file is never joined to the next file. */
  lemma RotationLosesAndRepeatsNothing(f: Framer, fs: FileSystem, fromBegin: bool, events: seq<Event>)
    requires f.Lawful() && fs.Valid() && ReadsSucceed(events)
    ensures var s := Run(Init(f, fs, fromBegin), events);
      var entered := Inodes(Spans(s));
      && Increasing(entered)
      && (s.phase == Idle && s.fd.Some? ==>
            && (fromBegin ==> Spans(s)[0].start == 0)
            && s.frames == Delivery(f, s.fs, entered, Spans(s)[0].start, s.fd.value.offset)
            && s.buffer == f.Rest(Window(s.fs, s.fd.value.inode, s.start, s.fd.value.offset)))
      && (s.phase == Idle && s.fd.None? && s.closed != [] ==>
            s.frames == Whole(f, s.fs, entered, s.closed[0].start) && s.buffer == [])
  {
    var s := Run(Init(f, fs, fromBegin), events);
    EveryRunKeepsInv(f, fs, fromBegin, events);
    RunKeepsSetting(f, fs, fromBegin, events);
    OnlyRotationsCloseFiles(f, fs, fromBegin, events);
    var spans := Spans(s);
    assert forall i :: 0 <= i < |s.closed| ==> s.closed[i] == spans[i];
    forall i, j | 0 <= i < j < |spans|
      ensures spans[i].inode < spans[j].inode
    {
      DrainedInodesIncrease(fromBegin, spans, i, j);
    }
    if s.phase == Idle {
      if s.fd.Some? {
        LastSpanIsPartial(f, s.fs, fromBegin, spans);
        assert spans[|s.closed|] == Span(s.fd.value.inode, s.start, s.fd.value.offset, false);
      } else {
        DrainedSpansAreWholeFiles(f, s.fs, fromBegin, spans);
      }
    }
  }

  lemma LastSpanIsPartial(f: Framer, fs: FileSystem, fromBegin: bool, spans: seq<Span>)
    requires spans != [] && AllFit(fs, spans) && InOrder(fromBegin, spans)
    requires forall i :: 0 <= i < |spans| - 1 ==> spans[i].drained
    ensures SpanFrames(f, fs, spans) == Delivery(f, fs, Inodes(spans), spans[0].start, spans[|spans| - 1].end)
  {
    var n := |spans| - 1;
    var earlier := spans[..n];
    assert forall i :: 0 <= i < n ==> earlier[i] == spans[i];
    assert AllFit(fs, earlier) && InOrder(fromBegin, earlier) && AllDrained(earlier);
    DrainedSpansAreWholeFiles(f, fs, fromBegin, earlier);
    assert Inodes(spans)[..n] == Inodes(earlier);
    assert n > 0 ==> Follows(fromBegin, spans[n - 1], spans[n]);
  }

  lemma StepKeepsSetting(s: State, e: Event)
    ensures Step(s, e).framer == s.framer && Step(s, e).fromBegin == s.fromBegin
  {
  }

  lemma {:induction false} RunKeepsSetting(f: Framer, fs: FileSystem, fromBegin: bool, events: seq<Event>)
    ensures var s := Run(Init(f, fs, fromBegin), events);
      s.framer == f && s.fromBegin == fromBegin
    decreases |events|
  {
    if events != [] {
      RunKeepsSetting(f, fs, fromBegin, events[..|events| - 1]);
      StepKeepsSetting(Run(Init(f, fs, fromBegin), events[..|events| - 1]), events[|events| - 1]);
    }
  }

  // ---------------------------------------------------------------- files that are never opened

  /** The frames of the first k files ever written, file after file. */
  function AllFrames(f: Framer, fs: FileSystem, k: nat): seq<Bytes>
    requires k <= |fs.files|
  {
    if k == 0 then [] else AllFrames(f, fs, k - 1) + f.Frames(From(fs, k - 1, 0))
  }

  lemma CancelSuffix<T>(a: seq<T>, b: seq<T>, x: seq<T>)
    ensures a + x == b + x <==> a == b
  {
    if a + x == b + x {
      assert |a + x| == |b + x|;
      assert a == (a + x)[..|a|] && b == (b + x)[..|b|];
    }
  }

  /** Each of the first k files that was never opened holds no frame. */
  ghost predicate UnopenedAreEmpty(f: Framer, fs: FileSystem, entered: seq<nat>, k: nat) {
    forall j :: 0 <= j < k && j !in entered ==> f.Frames(From(fs, j, 0)) == []
  }

  lemma UnopenedBelow(f: Framer, fs: FileSystem, entered: seq<nat>, k: nat)
    requires 0 < k
    ensures UnopenedAreEmpty(f, fs, entered + [k - 1], k) <==> UnopenedAreEmpty(f, fs, entered, k - 1)
    ensures k - 1 !in entered ==>
      (UnopenedAreEmpty(f, fs, entered, k)
       <==> UnopenedAreEmpty(f, fs, entered, k - 1) && f.Frames(From(fs, k - 1, 0)) == [])
  {
    forall j: nat | j < k - 1
      ensures j in entered + [k - 1] <==> j in entered
    {
    }
  }

  lemma WholeSnoc(f: Framer, fs: FileSystem, entered: seq<nat>, x: nat)
    ensures Whole(f, fs, entered + [x], 0) == Whole(f, fs, entered, 0) + f.Frames(From(fs, x, 0))
  {
    assert (entered + [x])[..|entered|] == entered;
  }

  lemma {:induction false} SkippedFilesAreTheLoss(f: Framer, fs: FileSystem, entered: seq<nat>, k: nat)
    requires k <= |fs.files| && Increasing(entered)
    requires entered != [] ==> entered[|entered| - 1] < k
    ensures |Whole(f, fs, entered, 0)| <= |AllFrames(f, fs, k)|
    ensures Whole(f, fs, entered, 0) == AllFrames(f, fs, k) <==> UnopenedAreEmpty(f, fs, entered, k)
    decreases k
  {
    if k > 0 {
      var n := |entered| - 1;
      var last := f.Frames(From(fs, k - 1, 0));
      assert AllFrames(f, fs, k) == AllFrames(f, fs, k - 1) + last;
      if entered != [] && entered[n] == k - 1 {
        var earlier := entered[..n];
        assert entered == earlier + [k - 1];
        SkippedFilesAreTheLoss(f, fs, earlier, k - 1);
        WholeSnoc(f, fs, earlier, k - 1);
        CancelSuffix(Whole(f, fs, earlier, 0), AllFrames(f, fs, k - 1), last);
        UnopenedBelow(f, fs, earlier, k);
      } else {
        SkippedFilesAreTheLoss(f, fs, entered, k - 1);
        SkippedLast(Whole(f, fs, entered, 0), AllFrames(f, fs, k - 1), last);
        if entered != [] {
          LastIsLargest(entered);
        }
        UnopenedBelow(f, fs, entered, k);
      }
    }
  }

  lemma LastIsLargest(entered: seq<nat>)
    requires Increasing(entered) && entered != []
    ensures forall x :: x in entered ==> x <= entered[|entered| - 1]
  {
    forall i | 0 <= i < |entered|
      ensures entered[i] <= entered[|entered| - 1]
    {
      if i < |entered| - 1 {
        assert entered[i] < entered[|entered| - 1];
      }
    }
  }

  lemma SkippedLast<T>(w: seq<T>, a: seq<T>, last: seq<T>)
    requires |w| <= |a|
    ensures w == a + last <==> w == a && last == []
  {
    if w == a + last {
      assert |w| == |a| + |last|;
    }
  }

  /** The descriptor is on the newest file and has nothing more to read. */
  predicate AtTheEnd(fs: FileSystem, fd: Fd) {
    fd.inode + 1 == |fs.files| && fd.offset == |fs.files[fd.inode]|
  }

  // ---------------------------------------------------------------- which files are entered

  /** The log after the changes made to it in between the calls. */
  function FsAfter(fs: FileSystem, events: seq<Event>): FileSystem
    decreases |events|
  {
    if events == [] then fs
    else
      var before, last := FsAfter(fs, events[..|events| - 1]), events[|events| - 1];
      if last.Env? then ApplyAll(before, last.changes) else before
  }

  lemma StepChangesFs(s: State, e: Event)
    ensures Step(s, e).fs == if e.Env? then ApplyAll(s.fs, e.changes) else s.fs
  {
  }

  lemma {:induction false} RunChangesFs(f: Framer, fs: FileSystem, fromBegin: bool, events: seq<Event>)
    ensures Run(Init(f, fs, fromBegin), events).fs == FsAfter(fs, events)
    decreases |events|
  {
    if events != [] {
      RunChangesFs(f, fs, fromBegin, events[..|events| - 1]);
      StepChangesFs(Run(Init(f, fs, fromBegin), events[..|events| - 1]), events[|events| - 1]);
    }
  }

  /** Call p is a successful open, due at that point, while the path names file j. */
  ghost predicate Opens(f: Framer, fs: FileSystem, fromBegin: bool, events: seq<Event>, p: nat, j: nat) {
    && p < |events| && events[p] == OpenPath(false)
    && Due(Run(Init(f, fs, fromBegin), events[..p]), events[p])
    && var r := FsAfter(fs, events[..p]);
       r.named && |r.files| == j + 1
  }

  ghost predicate NoSeek(events: seq<Event>, a: nat, b: nat) {
    forall k :: a <= k < b && k < |events| ==> !events[k].SeekAndStat?
  }

  /** The open of file j in call p is completed by a successful seek in call q. */
  ghost predicate Enters(f: Framer, fs: FileSystem, fromBegin: bool, events: seq<Event>, p: nat, q: nat, j: nat) {
    && p < q < |events| && Opens(f, fs, fromBegin, events, p, j)
    && events[q] == SeekAndStat(false) && NoSeek(events, p + 1, q)
  }

  lemma OpensEarlier(f: Framer, fs: FileSystem, fromBegin: bool, events: seq<Event>, n: nat, p: nat, j: nat)
    requires p < n <= |events|
    ensures Opens(f, fs, fromBegin, events[..n], p, j) <==> Opens(f, fs, fromBegin, events, p, j)
  {
    assert events[..n][..p] == events[..p];
  }

  /** How a file comes to be open but not entered yet. */
  lemma StepSeeks(s: State, e: Event, j: nat)
    ensures Step(s, e).phase.Seeking? && Step(s, e).phase.inode == j <==>
      || (s.phase.Seeking? && s.phase.inode == j && !e.SeekAndStat?)
      || (e == OpenPath(false) && Due(s, e) && s.fs.named && |s.fs.files| == j + 1)
  {
  }

  ghost predicate IsSeeking(s: State, j: nat) {
    s.phase.Seeking? && s.phase.inode == j
  }

  lemma {:induction false} SeekingSince(f: Framer, fs: FileSystem, fromBegin: bool, events: seq<Event>, j: nat)
      returns (p: nat)
    requires IsSeeking(Run(Init(f, fs, fromBegin), events), j)
    ensures Opens(f, fs, fromBegin, events, p, j) && NoSeek(events, p + 1, |events|)
    decreases |events|
  {
    var n := |events| - 1;
    var before := Run(Init(f, fs, fromBegin), events[..n]);
    StepSeeks(before, events[n], j);
    if IsSeeking(before, j) && !events[n].SeekAndStat? {
      p := SeekingSince(f, fs, fromBegin, events[..n], j);
      OpensEarlier(f, fs, fromBegin, events, n, p, j);
      assert forall k :: p + 1 <= k < n ==> !events[..n][k].SeekAndStat?;
    } else {
      RunChangesFs(f, fs, fromBegin, events[..n]);
      p := n;
    }
  }

  lemma {:induction false} StillSeeking(f: Framer, fs: FileSystem, fromBegin: bool, events: seq<Event>, p: nat, j: nat)
    requires Opens(f, fs, fromBegin, events, p, j) && NoSeek(events, p + 1, |events|)
    ensures IsSeeking(Run(Init(f, fs, fromBegin), events), j)
    decreases |events|
  {
    var n := |events| - 1;
    StepSeeks(Run(Init(f, fs, fromBegin), events[..n]), events[n], j);
    if p < n {
      OpensEarlier(f, fs, fromBegin, events, n, p, j);
      assert forall k :: p + 1 <= k < n ==> !events[..n][k].SeekAndStat?;
      StillSeeking(f, fs, fromBegin, events[..n], p, j);
      assert !events[n].SeekAndStat?;
    } else {
      RunChangesFs(f, fs, fromBegin, events[..n]);
    }
  }

  lemma StepEnters(s: State, e: Event)
    requires FdInv(s)
    ensures Inodes(Spans(Step(s, e)))
         == Inodes(Spans(s)) + if e == SeekAndStat(false) && s.phase.Seeking? then [s.phase.inode] else []
  {
    var t := Step(s, e);
    if e == SeekAndStat(false) && s.phase.Seeking? {
      assert Spans(t) == Spans(s) + [Span(s.phase.inode, t.start, t.start, false)];
    } else {
      assert |Spans(t)| == |Spans(s)|;
    }
  }

  /** Some file is entered in the last step. */
  ghost predicate EntersLast(f: Framer, fs: FileSystem, fromBegin: bool, events: seq<Event>, j: nat)
    requires events != []
  {
    && events[|events| - 1] == SeekAndStat(false)
    && IsSeeking(Run(Init(f, fs, fromBegin), events[..|events| - 1]), j)
  }

  lemma InodesGrow(f: Framer, fs: FileSystem, fromBegin: bool, events: seq<Event>, j: nat)
    requires f.Lawful() && fs.Valid() && events != []
    ensures j in Inodes(Spans(Run(Init(f, fs, fromBegin), events)))
       <==> j in Inodes(Spans(Run(Init(f, fs, fromBegin), events[..|events| - 1])))
            || EntersLast(f, fs, fromBegin, events, j)
  {
    var n := |events| - 1;
    EveryRunKeepsInv(f, fs, fromBegin, events[..n]);
    StepEnters(Run(Init(f, fs, fromBegin), events[..n]), events[n]);
  }

  lemma EnteredStaysOnce(f: Framer, fs: FileSystem, fromBegin: bool, b: seq<Event>)
    requires f.Lawful() && fs.Valid() && b != []
    ensures Inodes(Spans(Run(Init(f, fs, fromBegin), b[..|b| - 1]))) <= Inodes(Spans(Run(Init(f, fs, fromBegin), b)))
  {
    var n := |b| - 1;
    EveryRunKeepsInv(f, fs, fromBegin, b[..n]);
    StepEnters(Run(Init(f, fs, fromBegin), b[..n]), b[n]);
  }

  /** Files that have been entered stay so, in the same order. */
  lemma {:induction false} EnteredStays(f: Framer, fs: FileSystem, fromBegin: bool, a: seq<Event>, b: seq<Event>)
    requires f.Lawful() && fs.Valid() && a <= b
    ensures Inodes(Spans(Run(Init(f, fs, fromBegin), a))) <= Inodes(Spans(Run(Init(f, fs, fromBegin), b)))
    decreases |b|
  {
    if |a| == |b| {
      assert a == b;
    } else {
      EnteredStays(f, fs, fromBegin, a, b[..|b| - 1]);
      EnteredStaysOnce(f, fs, fromBegin, b);
    }
  }

  lemma EntersEarlier(f: Framer, fs: FileSystem, fromBegin: bool, events: seq<Event>, n: nat, p: nat, q: nat, j: nat)
    requires q < n <= |events|
    ensures Enters(f, fs, fromBegin, events[..n], p, q, j) <==> Enters(f, fs, fromBegin, events, p, q, j)
  {
    if p < q {
      OpensEarlier(f, fs, fromBegin, events, n, p, j);
      assert forall k :: p + 1 <= k < q ==> events[..n][k] == events[k];
    }
  }

  lemma {:induction false} WhatIsSoughtIsEntered(f: Framer, fs: FileSystem, fromBegin: bool, events: seq<Event>,
                                                 p: nat, q: nat, j: nat)
    requires f.Lawful() && fs.Valid() && Enters(f, fs, fromBegin, events, p, q, j)
    ensures j in Inodes(Spans(Run(Init(f, fs, fromBegin), events)))
    decreases |events|
  {
    var n := |events| - 1;
    InodesGrow(f, fs, fromBegin, events, j);
    if q < n {
      EntersEarlier(f, fs, fromBegin, events, n, p, q, j);
      WhatIsSoughtIsEntered(f, fs, fromBegin, events[..n], p, q, j);
    } else {
      OpensEarlier(f, fs, fromBegin, events, n, p, j);
      assert forall k :: p + 1 <= k < n ==> events[..n][k] == events[k];
      StillSeeking(f, fs, fromBegin, events[..n], p, j);
    }
  }

  lemma {:induction false} WhatIsEnteredWasSought(f: Framer, fs: FileSystem, fromBegin: bool, events: seq<Event>,
                                                  j: nat)
      returns (p: nat, q: nat)
    requires f.Lawful() && fs.Valid() && j in Inodes(Spans(Run(Init(f, fs, fromBegin), events)))
    ensures Enters(f, fs, fromBegin, events, p, q, j)
    decreases |events|
  {
    var n := |events| - 1;
    InodesGrow(f, fs, fromBegin, events, j);
    if EntersLast(f, fs, fromBegin, events, j) {
      q := n;
      p := SeekingSince(f, fs, fromBegin, events[..n], j);
      OpensEarlier(f, fs, fromBegin, events, n, p, j);
      assert forall k :: p + 1 <= k < n ==> events[..n][k] == events[k];
    } else {
      p, q := WhatIsEnteredWasSought(f, fs, fromBegin, events[..n], j);
      EntersEarlier(f, fs, fromBegin, events, n, p, q, j);
    }
  }

  /** A file is entered exactly if, at some point when opening the log was due, the open succeeded
      while the path named that file, and so did the seek after it. */
  lemma FileIsEnteredIff(f: Framer, fs: FileSystem, fromBegin: bool, events: seq<Event>, j: nat)
    requires f.Lawful() && fs.Valid()
    ensures j in Inodes(Spans(Run(Init(f, fs, fromBegin), events)))
       <==> exists p, q :: Enters(f, fs, fromBegin, events, p, q, j)
  {
    if j in Inodes(Spans(Run(Init(f, fs, fromBegin), events))) {
      var p, q := WhatIsEnteredWasSought(f, fs, fromBegin, events, j);
    }
    if p: nat, q: nat :| Enters(f, fs, fromBegin, events, p, q, j) {
      WhatIsSoughtIsEntered(f, fs, fromBegin, events, p, q, j);
    }
  }

  /** File j holds no frame, or the reader found it under the path and entered it. */
  ghost predicate SeenOrEmpty(f: Framer, fs: FileSystem, events: seq<Event>, j: nat) {
    || (exists p, q :: Enters(f, fs, true, events, p, q, j))
    || f.Frames(From(FsAfter(fs, events), j, 0)) == []
  }

  /** With `-b` and no failing read, once the reader is at the end of the newest file it has
      delivered every frame ever written exactly if each file that holds one was still the newest,
      with the path naming it, at some successful open that a successful seek followed. */
  lemma NothingIsLostIff(f: Framer, fs: FileSystem, events: seq<Event>)
    requires f.Lawful() && fs.Valid() && ReadsSucceed(events)
    ensures var s := Run(Init(f, fs, true), events);
      s.phase == Idle && s.fd.Some? && AtTheEnd(s.fs, s.fd.value) ==>
        (s.frames == AllFrames(f, s.fs, |s.fs.files|)
         <==> forall j :: 0 <= j < |s.fs.files| ==> SeenOrEmpty(f, fs, events, j))
  {
    var s := Run(Init(f, fs, true), events);
    RunChangesFs(f, fs, true, events);
    if s.phase == Idle && s.fd.Some? && AtTheEnd(s.fs, s.fd.value) {
      EverythingIffUnopenedAreEmpty(f, fs, events);
      forall j: nat | j < |s.fs.files|
        ensures SeenOrEmpty(f, fs, events, j) <==> (j !in Inodes(Spans(s)) ==> f.Frames(From(s.fs, j, 0)) == [])
      {
        FileIsEnteredIff(f, fs, true, events, j);
      }
    }
  }

  lemma EverythingIffUnopenedAreEmpty(f: Framer, fs: FileSystem, events: seq<Event>)
    requires f.Lawful() && fs.Valid() && ReadsSucceed(events)
    requires var s := Run(Init(f, fs, true), events);
      s.phase == Idle && s.fd.Some? && AtTheEnd(s.fs, s.fd.value)
    ensures var s := Run(Init(f, fs, true), events);
      && s.fd.value.inode in Inodes(Spans(s))
      && (s.frames == AllFrames(f, s.fs, |s.fs.files|)
          <==> UnopenedAreEmpty(f, s.fs, Inodes(Spans(s)), |s.fs.files|))
  {
    var s := Run(Init(f, fs, true), events);
    RotationLosesAndRepeatsNothing(f, fs, true, events);
    EveryRunKeepsInv(f, fs, true, events);
    var entered := Inodes(Spans(s));
    assert entered[|entered| - 1] == s.fd.value.inode;
    assert SpanFits(s.fs, Spans(s)[|entered| - 1]);
    SkippedFilesAreTheLoss(f, s.fs, entered, |s.fs.files|);
  }

  // ---------------------------------------------------------------- looking often enough

  function RotationsIn(changes: seq<Change>): nat
    decreases |changes|
  {
    if changes == [] then 0 else (if changes[0].Rotate? then 1 else 0) + RotationsIn(changes[1..])
  }

  /** How often the log was rotated between the calls. */
  function Rotations(events: seq<Event>): nat
    decreases |events|
  {
    if events == [] then 0
    else
      var last := events[|events| - 1];
      Rotations(events[..|events| - 1]) + if last.Env? then RotationsIn(last.changes) else 0
  }

  lemma {:induction false} RotationsMakeFiles(fs: FileSystem, changes: seq<Change>)
    ensures |ApplyAll(fs, changes).files| == |fs.files| + RotationsIn(changes)
    decreases |changes|
  {
    if changes != [] {
      RotationsMakeFiles(Apply(fs, changes[0]), changes[1..]);
    }
  }

  lemma {:induction false} FilesBetween(fs: FileSystem, events: seq<Event>, a: nat, b: nat)
    requires a <= b <= |events|
    ensures |FsAfter(fs, events[..b]).files| == |FsAfter(fs, events[..a]).files| + Rotations(events[a..b])
    decreases b
  {
    if a < b {
      FilesBetween(fs, events, a, b - 1);
      assert events[..b][..b - 1] == events[..b - 1];
      assert events[a..b][..b - 1 - a] == events[a..b - 1];
      if events[b - 1].Env? {
        RotationsMakeFiles(FsAfter(fs, events[..b - 1]), events[b - 1].changes);
      }
    }
  }

  /** An earlier successful open, since which the log has been rotated at most once. */
  ghost predicate OpenedBefore(f: Framer, fs: FileSystem, events: seq<Event>, p: nat, o: nat, r: nat, i: nat) {
    p <= |events| && Enters(f, fs, true, events, o, r, i) && r < p && Rotations(events[o..p]) <= 1
  }

  /** At most one rotation between two successful opens; and the first open finds the only file
      there has ever been. */
  ghost predicate OneRotationBetweenOpens(f: Framer, fs: FileSystem, events: seq<Event>) {
    forall p: nat, q: nat, j: nat :: Enters(f, fs, true, events, p, q, j) ==>
      || |fs.files| + Rotations(events[..p]) <= 1
      || exists o, r, i :: OpenedBefore(f, fs, events, p, o, r, i)
  }

  lemma {:induction false} AllUpToAreEntered(f: Framer, fs: FileSystem, events: seq<Event>, p: nat, q: nat, j: nat,
                                             k: nat)
    requires OneRotationBetweenOpens(f, fs, events)
    requires Enters(f, fs, true, events, p, q, j) && k <= j
    ensures exists o, r :: Enters(f, fs, true, events, o, r, k)
    decreases p
  {
    if k < j {
      FilesBetween(fs, events, 0, p);
      assert events[..0] == [] && events[0..p] == events[..p];
      var o: nat, r: nat, i: nat :| OpenedBefore(f, fs, events, p, o, r, i);
      FilesBetween(fs, events, o, p);
      AllUpToAreEntered(f, fs, events, o, r, i, k);
    }
  }

  /** If the reader, started with `-b` on the first file, opens the log at least once between any
      two rotations, it delivers every frame ever written. */
  lemma OneRotationBetweenOpensLosesNothing(f: Framer, fs: FileSystem, events: seq<Event>)
    requires f.Lawful() && fs.Valid() && ReadsSucceed(events)
    requires OneRotationBetweenOpens(f, fs, events)
    ensures var s := Run(Init(f, fs, true), events);
      s.phase == Idle && s.fd.Some? && AtTheEnd(s.fs, s.fd.value) ==>
        s.frames == AllFrames(f, s.fs, |s.fs.files|)
  {
    var s := Run(Init(f, fs, true), events);
    if s.phase == Idle && s.fd.Some? && AtTheEnd(s.fs, s.fd.value) {
      NothingIsLostIff(f, fs, events);
      EverythingIffUnopenedAreEmpty(f, fs, events);
      var p, q := WhatIsEnteredWasSought(f, fs, true, events, s.fd.value.inode);
      forall j | 0 <= j < |s.fs.files|
        ensures SeenOrEmpty(f, fs, events, j)
      {
        AllUpToAreEntered(f, fs, events, p, q, s.fd.value.inode, j);
      }
    }
  }

  /** A run with `-b` and no failing read that ends at the end of the newest of three files,
      without the record that was written to the second. */
  ghost predicate LosesTheRecord(events: seq<Event>, payload: Bytes) {
    var s := Run(Init(B2log.B2LOG, FileSystem([[]], true), true), events);
    && ReadsSucceed(events)
    && s.phase == Idle && s.fd == Some(Fd(2, 0)) && |s.fs.files| == 3
    && s.frames == [] && AllFrames(B2log.B2LOG, s.fs, 3) == [payload]
  }

  /** Two rotations between two looks at the path: the records of the file in between are lost. */
  lemma TwoRotationsLoseAFile(payload: Bytes)
    requires |payload| <= B2log.MAX_RECORD_SIZE
    ensures exists events :: LosesTheRecord(events, payload)
  {
    var log := OneRecord(payload);
    var events := ENTER + Look(log) + SWITCH + [Finish];
    SkippingRun(B2log.B2LOG, log);
    assert ReadsSucceed(events);
    LostFile(B2log.B2LOG, FileSystem([[], log, []], true), log, payload);
    assert LosesTheRecord(events, payload);
  }

  /** A log that holds one record. */
  lemma OneRecord(payload: Bytes) returns (log: Bytes)
    requires |payload| <= B2log.MAX_RECORD_SIZE
    ensures B2log.B2LOG.Frames([]) == [] && B2log.B2LOG.Frames(log) == [payload]
  {
    B2log.B2logIsLawful();
    B2log.B2LOG.NothingToParse();
    log := B2log.Encode([1, 0, 0, 0], [0, 0, 0, 0, 0, 0, 0, 0], payload);
    B2log.EncodeIsOneFrame([1, 0, 0, 0], [0, 0, 0, 0, 0, 0, 0, 0], payload, []);
    assert log + [] == log;
  }

  lemma SkippingRun(f: Framer, log: Bytes)
    ensures Run(Init(f, FileSystem([[]], true), true), ENTER + Look(log) + SWITCH + [Finish])
         == Switched(f, log).(phase := Idle)
  {
    var s0 := Init(f, FileSystem([[]], true), true);
    EnterFirst(f);
    LookAfterTwoRotations(f, log);
    SwitchFiles(f, log);
    RunAppend(s0, ENTER, Look(log));
    RunAppend(s0, ENTER + Look(log), SWITCH);
    RunAppend(s0, ENTER + Look(log) + SWITCH, [Finish]);
    assert [Finish][..0] == [];
  }

  const ENTER := [StatPath(false), OpenPath(false), SeekAndStat(false)]
  const SWITCH := [ReadAll(false), OpenPath(false), SeekAndStat(false)]

  function Look(log: Bytes): seq<Event> {
    [Env([Rotate(true), Append(log), Rotate(true)]), Read(false, 1), StatForCut(false)]
  }

  function Reading(f: Framer): State {
    State(f, true, FileSystem([[]], true), Some(Fd(0, 0)), 0, Some(0), true, [], Idle, [], [])
  }

  function Rotated(f: Framer, log: Bytes): State {
    Reading(f).(fs := FileSystem([[], log, []], true), phase := Draining)
  }

  function Switched(f: Framer, log: Bytes): State {
    State(f, true, FileSystem([[], log, []], true), Some(Fd(2, 0)), 0, Some(2), true, [],
          Finishing(Some([])), [Span(0, 0, 0, true)], [])
  }

  lemma EnterFirst(f: Framer)
    ensures Run(Init(f, FileSystem([[]], true), true), ENTER) == Reading(f)
  {
    RunOfThree(Init(f, FileSystem([[]], true), true), ENTER);
  }

  lemma LookAfterTwoRotations(f: Framer, log: Bytes)
    ensures Run(Reading(f), Look(log)) == Rotated(f, log)
  {
    ChangesUnfold(log);
    RunOfThree(Reading(f), Look(log));
  }

  lemma SwitchFiles(f: Framer, log: Bytes)
    ensures Run(Rotated(f, log), SWITCH) == Switched(f, log)
  {
    RunOfThree(Rotated(f, log), SWITCH);
  }

  lemma LostFile(f: Framer, fs: FileSystem, log: Bytes, payload: Bytes)
    requires fs.files == [[], log, []] && f.Frames([]) == [] && f.Frames(log) == [payload]
    ensures AllFrames(f, fs, 3) == [payload]
  {
    assert From(fs, 1, 0) == log;
    assert AllFrames(f, fs, 1) == [] && AllFrames(f, fs, 2) == [payload];
  }

  lemma {:induction false} RunAppend(s: State, a: seq<Event>, b: seq<Event>)
    ensures Run(s, a + b) == Run(Run(s, a), b)
    decreases |b|
  {
    if b == [] {
      assert a + b == a;
    } else {
      var n := |b| - 1;
      assert (a + b)[..|a + b| - 1] == a + b[..n];
      RunAppend(s, a, b[..n]);
    }
  }

  lemma RunOfThree(s: State, events: seq<Event>)
    requires |events| == 3
    ensures Run(s, events) == Step(Step(Step(s, events[0]), events[1]), events[2])
  {
    assert events[..2][..1] == [events[0]] && events[..2][1] == events[1];
    assert Run(s, [events[0]]) == Step(s, events[0]) by { assert [events[0]][..0] == []; }
    assert Run(s, events[..2]) == Step(Run(s, events[..2][..1]), events[1]);
  }

  lemma ChangesUnfold(log: Bytes)
    ensures ApplyAll(FileSystem([[]], true), [Rotate(true), Append(log), Rotate(true)])
         == FileSystem([[], log, []], true)
  {
    var cs := [Rotate(true), Append(log), Rotate(true)];
    var a := Apply(FileSystem([[]], true), cs[0]);
    var b := Apply(a, cs[1]);
    assert [] + log == log;
    assert a.files == [[], []] && b.files == [[], log];
    assert cs[1..][0] == cs[1] && cs[1..][1..] == [cs[2]] && [cs[2]][1..] == [];
    assert ApplyAll(b, [cs[2]]) == Apply(b, cs[2]);
  }

  // ---------------------------------------------------------------- where a file is entered

  lemma StepKeepsOpenings(s: State, e: Event)
    requires FdInv(s)
    ensures |Spans(s)| <= |Spans(Step(s, e))|
    ensures forall i :: 0 <= i < |Spans(s)| ==>
      Spans(Step(s, e))[i].inode == Spans(s)[i].inode && Spans(Step(s, e))[i].start == Spans(s)[i].start
    ensures forall i :: 0 <= i < |Spans(s)| - 1 ==> Spans(Step(s, e))[i] == Spans(s)[i]
  {
  }

  /** Opening n of the run: its open is call p, its seek call q, and it begins at byte 0 if the log is
      read from the beginning or the file before it was drained, otherwise where the file ended. */
  ghost predicate OpeningBegins(f: Framer, fs: FileSystem, fromBegin: bool, events: seq<Event>, spans: seq<Span>,
                                n: nat, p: nat, q: nat)
    requires n < |spans|
  {
    && Enters(f, fs, fromBegin, events, p, q, spans[n].inode)
    && |Spans(Run(Init(f, fs, fromBegin), events[..q]))| == n
    && spans[n].start == if fromBegin || (n > 0 && spans[n - 1].drained) then 0
                         else |Content(FsAfter(fs, events[..q]), spans[n].inode)|
  }

  lemma OpeningIsKept(f: Framer, fs: FileSystem, fromBegin: bool, events: seq<Event>, n: nat, p: nat, q: nat)
    requires f.Lawful() && fs.Valid() && events != []
    requires var before := Spans(Run(Init(f, fs, fromBegin), events[..|events| - 1]));
      n < |before| && OpeningBegins(f, fs, fromBegin, events[..|events| - 1], before, n, p, q)
    ensures var spans := Spans(Run(Init(f, fs, fromBegin), events));
      n < |spans| && OpeningBegins(f, fs, fromBegin, events, spans, n, p, q)
  {
    var k := |events| - 1;
    EveryRunKeepsInv(f, fs, fromBegin, events[..k]);
    StepKeepsOpenings(Run(Init(f, fs, fromBegin), events[..k]), events[k]);
    EntersEarlier(f, fs, fromBegin, events, k, p, q, Spans(Run(Init(f, fs, fromBegin), events[..k]))[n].inode);
    assert events[..k][..q] == events[..q];
  }

  lemma OpeningIsNew(f: Framer, fs: FileSystem, fromBegin: bool, events: seq<Event>, n: nat) returns (p: nat)
    requires f.Lawful() && fs.Valid() && events != []
    requires |Spans(Run(Init(f, fs, fromBegin), events[..|events| - 1]))| == n
    requires |Spans(Run(Init(f, fs, fromBegin), events))| == n + 1
    ensures OpeningBegins(f, fs, fromBegin, events, Spans(Run(Init(f, fs, fromBegin), events)), n, p, |events| - 1)
  {
    var k := |events| - 1;
    var s, t := Run(Init(f, fs, fromBegin), events[..k]), Run(Init(f, fs, fromBegin), events);
    EveryRunKeepsInv(f, fs, fromBegin, events[..k]);
    StepEnters(s, events[k]);
    assert events[k] == SeekAndStat(false) && s.phase.Seeking?;
    var j := s.phase.inode;
    p := SeekingSince(f, fs, fromBegin, events[..k], j);
    OpensEarlier(f, fs, fromBegin, events, k, p, j);
    assert forall i :: p + 1 <= i < k ==> events[..k][i] == events[i];
    RunChangesFs(f, fs, fromBegin, events[..k]);
    RunKeepsSetting(f, fs, fromBegin, events[..k]);
    SeekEnters(s, t);
  }

  lemma SeekEnters(s: State, t: State)
    requires FdInv(s) && s.phase.Seeking? && t == Step(s, SeekAndStat(false))
    ensures Spans(s) == s.closed
    ensures Spans(t) == s.closed + [Span(s.phase.inode, t.start, t.start, false)]
    ensures t.start == if s.fromBegin || (s.closed != [] && s.closed[|s.closed| - 1].drained) then 0
                       else |Content(s.fs, s.phase.inode)|
  {
  }

  /** Where every opening of every run begins. In particular, without `-b` the first file is entered
      at the size it had when the reader sought its end, and so is one that is opened again after a
      failed read; a file that follows one read to its end is entered at its first byte. */
  lemma {:induction false} OpeningBeginsAt(f: Framer, fs: FileSystem, fromBegin: bool, events: seq<Event>, n: nat)
      returns (p: nat, q: nat)
    requires f.Lawful() && fs.Valid() && n < |Spans(Run(Init(f, fs, fromBegin), events))|
    ensures OpeningBegins(f, fs, fromBegin, events, Spans(Run(Init(f, fs, fromBegin), events)), n, p, q)
    decreases |events|
  {
    var k := |events| - 1;
    var before := Spans(Run(Init(f, fs, fromBegin), events[..k]));
    if n < |before| {
      p, q := OpeningBeginsAt(f, fs, fromBegin, events[..k], n);
      OpeningIsKept(f, fs, fromBegin, events, n, p, q);
    } else {
      EveryRunKeepsInv(f, fs, fromBegin, events[..k]);
      StepEnters(Run(Init(f, fs, fromBegin), events[..k]), events[k]);
      p := OpeningIsNew(f, fs, fromBegin, events, n);
      q := k;
    }
  }

  // ---------------------------------------------------------------- what one round achieves

  /** A round in which stat, open and seek are answered, with the changes made before each. */
  function OpeningRound(a: seq<Change>, masked: bool, b: seq<Change>, c: seq<Change>): seq<Event> {
    [Env(a), StatPath(masked), Env(b)] + [OpenPath(false), Env(c), SeekAndStat(false)]
  }

  /** From every reachable state without an open file one round is enough to open the newest: the
      log need only be there, or stat fail otherwise than by its absence, and the path name it when
      it is opened. No earlier history keeps the reader from it. */
  lemma RoundOpensTheLog(f: Framer, fs: FileSystem, fromBegin: bool, events: seq<Event>, a: seq<Change>,
                         masked: bool, b: seq<Change>, c: seq<Change>)
    requires f.Lawful() && fs.Valid()
    requires var s := Run(Init(f, fs, fromBegin), events); s.phase == Idle && s.fd.None?
    requires var log := ApplyAll(FsAfter(fs, events), a);
      (log.named || masked) && ApplyAll(log, b).named
    ensures var t := Run(Init(f, fs, fromBegin), events + OpeningRound(a, masked, b, c));
      var log := ApplyAll(ApplyAll(FsAfter(fs, events), a), b);
      t.phase == Idle && t.fd.Some? && t.fd.value.inode + 1 == |log.files|
  {
    var s := Run(Init(f, fs, fromBegin), events);
    RunChangesFs(f, fs, fromBegin, events);
    EveryRunKeepsInv(f, fs, fromBegin, events);
    var x, y := [Env(a), StatPath(masked), Env(b)], [OpenPath(false), Env(c), SeekAndStat(false)];
    RunAppend(Init(f, fs, fromBegin), events, x + y);
    RunAppend(s, x, y);
    RunOfThree(s, x);
    RunOfThree(Run(s, x), y);
    StatThenOpen(s, a, masked, b, c);
  }

  lemma StatThenOpen(s: State, a: seq<Change>, masked: bool, b: seq<Change>, c: seq<Change>)
    requires s.fs.Valid() && s.phase == Idle && s.fd.None?
    requires var log := ApplyAll(s.fs, a); (log.named || masked) && ApplyAll(log, b).named
    ensures var r := Step(Step(Step(s, Env(a)), StatPath(masked)), Env(b));
      var t := Step(Step(Step(r, OpenPath(false)), Env(c)), SeekAndStat(false));
      t.phase == Idle && t.fd.Some? && t.fd.value.inode + 1 == |ApplyAll(ApplyAll(s.fs, a), b).files|
  {
  }

  /** A round in which a reader at the end of its file finds another under the path. */
  function FollowingRound(a: seq<Change>, amount: nat, b: seq<Change>, c: seq<Change>, d: seq<Change>,
                          e: seq<Change>): seq<Event> {
    [Env(a), Read(false, amount), Env(b)] + [StatForCut(false), Env(c), ReadAll(false)]
    + ([Env(d), OpenPath(false), Env(e)] + [SeekAndStat(false), Finish])
  }

  /** From every reachable state one round is enough to follow a rotation: a reader at the end of its
      file that finds the path naming another one reads the old file to its very end and has the
      newest one open at its first byte. */
  lemma RoundFollowsTheRotation(f: Framer, fs: FileSystem, fromBegin: bool, events: seq<Event>, a: seq<Change>,
                                amount: nat, b: seq<Change>, c: seq<Change>, d: seq<Change>, e: seq<Change>)
    requires f.Lawful() && fs.Valid()
    requires var s := Run(Init(f, fs, fromBegin), events);
      && s.phase == Idle && s.fd.Some?
      && s.fd.value.offset == |Content(ApplyAll(s.fs, a), s.fd.value.inode)|
    requires var log := ApplyAll(ApplyAll(FsAfter(fs, events), a), b);
      && log.named && |log.files| != Run(Init(f, fs, fromBegin), events).fd.value.inode + 1
      && ApplyAll(ApplyAll(log, c), d).named
    ensures var s, t := Run(Init(f, fs, fromBegin), events),
                        Run(Init(f, fs, fromBegin), events + FollowingRound(a, amount, b, c, d, e));
      var end := ApplyAll(ApplyAll(ApplyAll(FsAfter(fs, events), a), b), c);
      && t.phase == Idle && t.fd.Some? && t.fd.value.inode + 1 == |ApplyAll(end, d).files| && t.fd.value.offset == 0
      && t.closed == s.closed + [Span(s.fd.value.inode, s.start, |Content(end, s.fd.value.inode)|, true)]
  {
    var s := Run(Init(f, fs, fromBegin), events);
    RunChangesFs(f, fs, fromBegin, events);
    EveryRunKeepsInv(f, fs, fromBegin, events);
    OffsetIsInFile(s);
    var w, x := [Env(a), Read(false, amount), Env(b)], [StatForCut(false), Env(c), ReadAll(false)];
    var y, z := [Env(d), OpenPath(false), Env(e)], [SeekAndStat(false), Finish];
    RunAppend(Init(f, fs, fromBegin), events, w + x + (y + z));
    RunAppend(s, w + x, y + z);
    RunAppend(s, w, x);
    RunAppend(Run(s, w + x), y, z);
    RunOfThree(s, w);
    RunOfThree(Run(s, w), x);
    RunOfThree(Run(s, w + x), y);
    RunOfTwo(Run(Run(s, w + x), y), z);
    LeaveFile(s, a, amount, b, c);
    EnterNext(Run(s, w + x), d, e);
  }

  lemma ReachTheEnd(s: State, a: seq<Change>, amount: nat, b: seq<Change>)
    requires s.phase == Idle && s.fd.Some?
    requires s.fd.value.offset == |Content(ApplyAll(s.fs, a), s.fd.value.inode)|
    ensures Step(Step(Step(s, Env(a)), Read(false, amount)), Env(b))
         == s.(fs := ApplyAll(ApplyAll(s.fs, a), b), phase := CheckCut)
  {
  }

  lemma DrainTheRest(s: State, c: seq<Change>)
    requires s.phase == CheckCut && s.fd.Some? && s.initDone && s.fs.named
    requires s.info == Some(s.fd.value.inode) && |s.fs.files| != s.fd.value.inode + 1
    requires s.fd.value.offset <= |Content(ApplyAll(s.fs, c), s.fd.value.inode)|
    ensures var t := Step(Step(Step(s, StatForCut(false)), Env(c)), ReadAll(false));
      var end := ApplyAll(s.fs, c);
      && t.phase.Opening? && t.phase.after.ForSwitch? && t.fs == end && t.fd.None? && t.initDone
      && t.closed == s.closed + [Span(s.fd.value.inode, s.start, |Content(end, s.fd.value.inode)|, true)]
  {
  }

  lemma LeaveFile(s: State, a: seq<Change>, amount: nat, b: seq<Change>, c: seq<Change>)
    requires Inv(s) && s.phase == Idle && s.fd.Some?
    requires s.fd.value.offset == |Content(ApplyAll(s.fs, a), s.fd.value.inode)|
    requires var log := ApplyAll(ApplyAll(s.fs, a), b); log.named && |log.files| != s.fd.value.inode + 1
    ensures var r := Step(Step(Step(s, Env(a)), Read(false, amount)), Env(b));
      var t := Step(Step(Step(r, StatForCut(false)), Env(c)), ReadAll(false));
      var end := ApplyAll(ApplyAll(ApplyAll(s.fs, a), b), c);
      && t.phase.Opening? && t.phase.after.ForSwitch? && t.fs == end && t.fd.None? && t.initDone
      && t.closed == s.closed + [Span(s.fd.value.inode, s.start, |Content(end, s.fd.value.inode)|, true)]
  {
    OffsetIsInFile(s);
    ReachTheEnd(s, a, amount, b);
    FilesKeep(s.fs, a, b, c, s.fd.value.inode);
    DrainTheRest(Step(Step(Step(s, Env(a)), Read(false, amount)), Env(b)), c);
  }

  lemma FilesKeep(fs: FileSystem, a: seq<Change>, b: seq<Change>, c: seq<Change>, i: nat)
    requires i < |fs.files|
    ensures |Content(ApplyAll(fs, a), i)| <= |Content(ApplyAll(ApplyAll(ApplyAll(fs, a), b), c), i)|
  {
    ChangesGrow(fs, a);
    ChangesGrow(ApplyAll(fs, a), b);
    ChangesGrow(ApplyAll(ApplyAll(fs, a), b), c);
  }

  lemma EnterNext(s: State, d: seq<Change>, e: seq<Change>)
    requires s.phase.Opening? && s.phase.after.ForSwitch? && s.initDone && s.fs.Valid()
    requires ApplyAll(s.fs, d).named
    ensures var r := Step(Step(Step(s, Env(d)), OpenPath(false)), Env(e));
      var t := Step(Step(r, SeekAndStat(false)), Finish);
      && t.phase == Idle && t.closed == s.closed
      && t.fd.Some? && t.fd.value.inode + 1 == |ApplyAll(s.fs, d).files| && t.fd.value.offset == 0
  {
  }

  lemma RunOfTwo(s: State, events: seq<Event>)
    requires |events| == 2
    ensures Run(s, events) == Step(Step(s, events[0]), events[1])
  {
    assert events[..1] == [events[0]];
    assert Run(s, [events[0]]) == Step(s, events[0]) by { assert [events[0]][..0] == []; }
  }

  // ---------------------------------------------------------------- failing reads

  lemma {:induction false} SameFileNextTime(spans: seq<Span>, fs: FileSystem, i: nat, j: nat)
    requires AllFit(fs, spans) && InOrder(false, spans)
    requires i < j < |spans|
    ensures spans[i].inode <= spans[j].inode
    ensures spans[i].inode == spans[j].inode ==> spans[i].end <= spans[j].start
    decreases j
  {
    assert Follows(false, spans[j - 1], spans[j]);
    if i < j - 1 {
      SameFileNextTime(spans, fs, i, j - 1);
      assert SpanFits(fs, spans[j - 1]);
    }
  }

  /** Without `-b` no byte is ever delivered twice, not even when reads fail: two stretches read
      from the same file do not overlap. */
  lemma NoByteIsReadTwice(f: Framer, fs: FileSystem, events: seq<Event>)
    requires f.Lawful() && fs.Valid()
    ensures var spans := Spans(Run(Init(f, fs, false), events));
      forall i, j :: 0 <= i < j < |spans| && spans[i].inode == spans[j].inode ==>
        spans[i].end <= spans[j].start
  {
    var s := Run(Init(f, fs, false), events);
    EveryRunKeepsInv(f, fs, false, events);
    RunKeepsSetting(f, fs, false, events);
    forall i, j | 0 <= i < j < |Spans(s)| && Spans(s)[i].inode == Spans(s)[j].inode
      ensures Spans(s)[i].end <= Spans(s)[j].start
    {
      SameFileNextTime(Spans(s), s.fs, i, j);
    }
  }

  /** The state of the reader between two calls, after any run whatever: an open file means that
      initialisation is done and that `fileInfo` is that file's; the buffer holds the unparsed
      end of what was read from the open file and nothing else, always less than one frame; and
      a file entered after the previous one was drained is entered at its first byte. */
  lemma BetweenCalls(f: Framer, fs: FileSystem, fromBegin: bool, events: seq<Event>)
    requires f.Lawful() && fs.Valid()
    ensures var s := Run(Init(f, fs, fromBegin), events);
      s.phase == Idle ==>
        && s.frames == SpanFrames(f, s.fs, Spans(s))
        && |s.buffer| < MAX_FRAME
        && (s.fd.None? ==> s.buffer == [])
        && (s.fd.Some? ==>
              && s.initDone && s.info == Some(s.fd.value.inode)
              && s.buffer == f.Rest(Window(s.fs, s.fd.value.inode, s.start, s.fd.value.offset))
              && (s.closed != [] && s.closed[|s.closed| - 1].drained ==>
                    s.start == 0 && s.closed[|s.closed| - 1].inode < s.fd.value.inode))
  {
    var s := Run(Init(f, fs, fromBegin), events);
    EveryRunKeepsInv(f, fs, fromBegin, events);
    RunKeepsSetting(f, fs, fromBegin, events);
    if s.phase == Idle && s.fd.Some? {
      f.RestIsIdle(Window(s.fs, s.fd.value.inode, s.start, s.fd.value.offset));
      var k := |s.closed|;
      if k > 0 {
        assert Follows(fromBegin, Spans(s)[k - 1], Spans(s)[k]);
      }
    }
  }

  lemma OneRead(s: State, amount: nat)
    requires Inv(s) && s.fd.Some?
    requires s.phase == Idle || (s.phase == CheckCut && s.fd.value.offset == |Content(s.fs, s.fd.value.inode)|)
    ensures var t := Step(s, Read(false, amount));
      && Inv(t) && t.fs == s.fs && t.fd.Some? && t.fd.value.inode == s.fd.value.inode
      && (t.phase == Idle || (t.phase == CheckCut && t.fd.value.offset == |Content(s.fs, t.fd.value.inode)|))
      && (s.fd.value.offset < t.fd.value.offset || t.fd.value.offset == |Content(s.fs, t.fd.value.inode)|)
  {
    StepKeepsInv(s, Read(false, amount));
    assert SpanFits(s.fs, Spans(s)[|s.closed|]);
  }

  /** The reader catches up: while the log stays as it is, so many successful reads, whatever
      each returns, bring it to the end of its file. */
  lemma {:induction false} ReadsReachTheEnd(s: State, events: seq<Event>)
    requires Inv(s) && s.phase == Idle && s.fd.Some?
    requires forall i :: 0 <= i < |events| ==> events[i].Read? && !events[i].fault
    ensures var t := Run(s, events);
      && Inv(t) && t.fs == s.fs && t.fd.Some? && t.fd.value.inode == s.fd.value.inode
      && (t.phase == Idle || (t.phase == CheckCut && t.fd.value.offset == |Content(s.fs, t.fd.value.inode)|))
      && (s.fd.value.offset + |events| <= t.fd.value.offset
          || t.fd.value.offset == |Content(s.fs, t.fd.value.inode)|)
    decreases |events|
  {
    if events != [] {
      var n := |events| - 1;
      ReadsReachTheEnd(s, events[..n]);
      OneRead(Run(s, events[..n]), events[n].amount);
      assert events[n] == Read(false, events[n].amount);
    }
  }
}
