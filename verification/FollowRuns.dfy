/** What `tail -f` shows over whole runs: of a log that is not rotated, and of one that is. A run is
    what FollowFrom promises: the turns in which its polls began and how following stood there. */
module FollowRuns {
  import opened Sequences
  import opened Framing
  import opened FileSystem
  import opened Kernel
  import opened PbParse
  import opened Follow
  import Tail

  // ---------------------------------------------------------------- every run

  /** The open file is not older than the one it is believed to be; if it is that one, no more has
      been read than there is. */
  ghost predicate Sane(fs: FileSystem, a: Spot) {
    && a.stretches != [] && a.Open().inode < |fs.files| && a.believed <= a.Open().inode
    && (a.believed == a.Open().inode ==> HasBytes(fs, a.Open().inode, a.Open().end))
  }

  /** A run that began in a file the log had at that time. */
  ghost predicate GoodRun(schedule: nat -> Turn, o: Origin, ticks: seq<nat>, spots: seq<Spot>) {
    && IsPolling(schedule, o, ticks, spots)
    && o.tick <= ticks[0] && Sane(Evolve(schedule, o, ticks[0]), spots[0])
  }

  /** A run of FollowFrom is one, if the file it is told to start in is there and that long. */
  lemma FollowedIsGood(schedule: nat -> Turn, o: Origin, opening: nat, next: nat, ticks: seq<nat>, spots: seq<Spot>,
                       polls: nat, at: nat, inode: nat)
    requires Followed(schedule, o, opening, next, ticks, spots, polls, at, inode)
    requires HasBytes(Evolve(schedule, o, opening), inode, at)
    ensures GoodRun(schedule, o, ticks, spots)
  {
    EvolveKeeps(schedule, o, opening, opening + 1, inode);
    EvolveKeeps(schedule, o, opening + 1, ticks[0], inode);
  }

  /** What a stat sees is the newest file of that moment, with all that it then held. */
  lemma SeenIsInTheLog(schedule: nat -> Turn, o: Origin, k: nat, q: Seen)
    requires o.tick <= k && StatAnswer(schedule, o, k) == Some(q)
    ensures var fs := Evolve(schedule, o, k + 1);
      |fs.files| == q.inode + 1 && |fs.files[q.inode]| == q.size
  {
  }

  lemma StatSees(schedule: nat -> Turn, o: Origin, k: nat, a: Spot, q: Seen)
    requires o.tick <= k && StatAnswer(schedule, o, k) == Some(q) && Sane(Evolve(schedule, o, k), a)
    ensures Sane(Evolve(schedule, o, k + 1), a) && a.Open().inode <= q.inode
    ensures Rotated(a, q) <==> a.believed != q.inode
    ensures Rotated(a, q) ==> a.believed < q.inode
  {
    EvolveKeeps(schedule, o, k, k + 1, a.Open().inode);
    SeenIsInTheLog(schedule, o, k, q);
  }

  /** A poll that gets an answer believes the file that it saw to be open; one that is at least as
      new is; and that one, if it is the file seen, has been read to the size seen. */
  ghost predicate CaughtUp(a: Spot, q: Seen, b: Spot) {
    && a.stretches != [] && b.stretches != []
    && a.believed <= b.believed == q.inode <= b.Open().inode
    && a.Open().inode <= b.Open().inode
    && (b.Open().inode == q.inode ==> b.Open().end == q.size)
    && (if a.believed == q.inode then |b.stretches| == |a.stretches| && b.Open().inode == a.Open().inode
        else |b.stretches| == |a.stretches| + 1)
  }

  lemma AnsweredPoll(schedule: nat -> Turn, o: Origin, k: nat, next: nat, a: Spot, q: Seen, b: Spot)
    requires o.tick <= k && StatAnswer(schedule, o, k) == Some(q) && Sane(Evolve(schedule, o, k), a)
    requires Polled(schedule, o, k, next, a, q, b)
    ensures Sane(Evolve(schedule, o, next), b) && CaughtUp(a, q, b)
    ensures a.believed != q.inode ==> b.Open().inode + 1 == |Evolve(schedule, o, k + 2).files|
  {
    StatSees(schedule, o, k, a, q);
    SeenIsInTheLog(schedule, o, k, q);
    EvolveKeeps(schedule, o, k + 1, next, q.inode);
    EvolveKeeps(schedule, o, k + 1, k + 2, q.inode);
    if Rotated(a, q) {
      EvolveKeeps(schedule, o, k + 2, next, q.inode);
    }
  }

  lemma OnePoll(schedule: nat -> Turn, o: Origin, k: nat, next: nat, a: Spot, b: Spot)
    requires PollLeads(schedule, o, k, next, a, b) && Sane(Evolve(schedule, o, k), a)
    ensures Sane(Evolve(schedule, o, next), b)
    ensures match StatAnswer(schedule, o, k)
      case None => b == a
      case Some(q) => CaughtUp(a, q, b)
  {
    match StatAnswer(schedule, o, k)
    case None => EvolveKeeps(schedule, o, k, k + 1, a.Open().inode);
    case Some(q) => AnsweredPoll(schedule, o, k, next, a, q, b);
  }

  lemma {:induction false} RunIsSane(schedule: nat -> Turn, o: Origin, ticks: seq<nat>, spots: seq<Spot>, i: nat)
    requires GoodRun(schedule, o, ticks, spots) && i < |ticks|
    ensures ticks[0] <= ticks[i] && Sane(Evolve(schedule, o, ticks[i]), spots[i])
    decreases i
  {
    if i > 0 {
      RunIsSane(schedule, o, ticks, spots, i - 1);
      assert PollAt(schedule, o, ticks, spots, i - 1);
      OnePoll(schedule, o, ticks[i - 1], ticks[i], spots[i - 1], spots[i]);
    }
  }

  lemma PollOfRun(schedule: nat -> Turn, o: Origin, ticks: seq<nat>, spots: seq<Spot>, i: nat)
    requires GoodRun(schedule, o, ticks, spots) && i + 1 < |ticks|
    ensures o.tick <= ticks[i] < ticks[i + 1]
    ensures Sane(Evolve(schedule, o, ticks[i]), spots[i])
    ensures match StatAnswer(schedule, o, ticks[i])
      case None => spots[i + 1] == spots[i]
      case Some(q) =>
        && CaughtUp(spots[i], q, spots[i + 1])
        && (q.inode != spots[i].believed ==>
              spots[i + 1].Open().inode + 1 == |Evolve(schedule, o, ticks[i] + 2).files|)
  {
    RunIsSane(schedule, o, ticks, spots, i);
    assert PollAt(schedule, o, ticks, spots, i);
    OnePoll(schedule, o, ticks[i], ticks[i + 1], spots[i], spots[i + 1]);
    if StatAnswer(schedule, o, ticks[i]).Some? {
      var q := StatAnswer(schedule, o, ticks[i]).value;
      AnsweredPoll(schedule, o, ticks[i], ticks[i + 1], spots[i], q, spots[i + 1]);
    }
  }

  lemma {:induction false} BeliefsGrow(schedule: nat -> Turn, o: Origin, ticks: seq<nat>, spots: seq<Spot>,
                                       i: nat, m: nat)
    requires GoodRun(schedule, o, ticks, spots) && i <= m < |ticks|
    ensures spots[i].believed <= spots[m].believed
    decreases m
  {
    if i < m {
      BeliefsGrow(schedule, o, ticks, spots, i, m - 1);
      PollOfRun(schedule, o, ticks, spots, m - 1);
    }
  }

  /** What the last of the polls that got an answer saw. */
  function LastSeen(schedule: nat -> Turn, o: Origin, looks: seq<nat>): Option<Seen>
    decreases |looks|
  {
    if looks == [] then None
    else
      var n, k := |looks| - 1, looks[|looks| - 1];
      var seen := if o.tick <= k then StatAnswer(schedule, o, k) else None;
      if seen.Some? then seen else LastSeen(schedule, o, looks[..n])
  }

  /** The program keeps up with the log, rotations included: after each poll the file that the last
      answer named, or a newer one, is open, and if it is that file, all that the answer said it
      held has been read. Without an answer nothing has changed. */
  lemma {:induction false} FollowingKeepsUp(schedule: nat -> Turn, o: Origin, ticks: seq<nat>, spots: seq<Spot>, i: nat)
    requires GoodRun(schedule, o, ticks, spots) && i < |ticks|
    ensures match LastSeen(schedule, o, ticks[..i])
      case None => spots[i] == spots[0]
      case Some(q) =>
        && spots[i].stretches != [] && spots[i].believed == q.inode <= spots[i].Open().inode
        && (spots[i].Open().inode == q.inode ==> spots[i].Open().end == q.size)
    decreases i
  {
    if i > 0 {
      FollowingKeepsUp(schedule, o, ticks, spots, i - 1);
      PollOfRun(schedule, o, ticks, spots, i - 1);
      assert ticks[..i][..i - 1] == ticks[..i - 1];
    }
  }

  // ---------------------------------------------------------------- a log that is not rotated

  lemma StillTheNewest(schedule: nat -> Turn, o: Origin, k: nat, next: nat, inode: nat)
    requires o.tick <= k < next && inode < |Evolve(schedule, o, k).files|
    requires |Evolve(schedule, o, next).files| == inode + 1
    ensures |Evolve(schedule, o, k).files| == |Evolve(schedule, o, k + 1).files| == inode + 1
  {
    EvolveKeeps(schedule, o, k, k + 1, inode);
    EvolveKeeps(schedule, o, k + 1, next, inode);
  }

  /** Only how far it has been read has changed. */
  ghost predicate StaysOpen(a: Spot, b: Spot) {
    && a.stretches != [] && b.stretches != [] && b.believed == a.believed
    && b.stretches == a.stretches[..|a.stretches| - 1] + [a.Open().(end := b.Open().end)]
  }

  lemma SameFileStaysOpen(schedule: nat -> Turn, o: Origin, k: nat, next: nat, a: Spot, b: Spot)
    requires PollLeads(schedule, o, k, next, a, b) && Sane(Evolve(schedule, o, k), a)
    requires a.believed + 1 == |Evolve(schedule, o, k + 1).files|
    ensures StaysOpen(a, b)
  {
    OnePoll(schedule, o, k, next, a, b);
    if StatAnswer(schedule, o, k).Some? {
      SeenIsInTheLog(schedule, o, k, StatAnswer(schedule, o, k).value);
    }
  }

  lemma {:induction false} OneFileStaysOpen(schedule: nat -> Turn, o: Origin, ticks: seq<nat>, spots: seq<Spot>, i: nat)
    requires GoodRun(schedule, o, ticks, spots) && i < |ticks|
    requires o.tick <= ticks[i] && |Evolve(schedule, o, ticks[i]).files| == spots[0].believed + 1
    ensures StaysOpen(spots[0], spots[i])
    decreases i
  {
    if i > 0 {
      var k := ticks[i - 1];
      RunIsSane(schedule, o, ticks, spots, i - 1);
      BeliefsGrow(schedule, o, ticks, spots, 0, i - 1);
      assert PollAt(schedule, o, ticks, spots, i - 1);
      StillTheNewest(schedule, o, k, ticks[i], spots[0].believed);
      OneFileStaysOpen(schedule, o, ticks, spots, i - 1);
      SameFileStaysOpen(schedule, o, k, ticks[i], spots[i - 1], spots[i]);
    }
  }

  lemma NoFileCreated(schedule: nat -> Turn, o: Origin, k: nat, next: nat)
    requires o.tick <= k <= next && |Evolve(schedule, o, next).files| == |o.fs.files|
    ensures |Evolve(schedule, o, k).files| == |o.fs.files|
  {
    EvolveKeeps(schedule, o, o.tick, k, 0);
    EvolveKeeps(schedule, o, k, next, 0);
  }

  /** As long as no file is created, the file that was shown is the one that following opens. */
  lemma ShownIsOpened(schedule: nat -> Turn, o: Origin, next: nat, sight: Sight, polls: nat)
    requires o.tick + 3 <= next && Showed(schedule, o, sight) && Followup(schedule, o, next, sight, polls)
    requires |Evolve(schedule, o, next).files| == |o.fs.files|
    ensures sight.inode + 1 == |Evolve(schedule, o, next).files|
    ensures sight.spots[0] == Spot([Stretch(sight.inode, |sight.content|, |sight.content|)], sight.inode)
    ensures sight.content <= Evolve(schedule, o, next).files[sight.inode]
  {
    NoFileCreated(schedule, o, o.tick + 1, next);
    NoFileCreated(schedule, o, o.tick + 3, next);
    EvolveKeeps(schedule, o, o.tick + 2, next, sight.inode);
  }

  lemma FollowupIsGood(schedule: nat -> Turn, o: Origin, next: nat, sight: Sight, polls: nat)
    requires o.tick <= next && Showed(schedule, o, sight) && Followup(schedule, o, next, sight, polls)
    ensures GoodRun(schedule, o, sight.ticks, sight.spots) && o.tick + 3 <= next
  {
    FollowedIsGood(schedule, o, o.tick + 2, next, sight.ticks, sight.spots, polls, |sight.content|, sight.inode);
    RunIsSane(schedule, o, sight.ticks, sight.spots, polls);
  }

  /** As long as no file is created, following opens one file, the one the tail was shown of, and
      has read it to the size that the last answer gave. */
  lemma OneFileIsFollowed(schedule: nat -> Turn, o: Origin, next: nat, sight: Sight, polls: nat) returns (end: nat)
    requires o.tick + 2 <= next && Showed(schedule, o, sight) && Followup(schedule, o, next, sight, polls)
    requires |Evolve(schedule, o, next).files| == |o.fs.files|
    ensures sight.inode + 1 == |o.fs.files|
    ensures sight.Stretches() == [Stretch(sight.inode, |sight.content|, end)]
    ensures end == match LastSeen(schedule, o, sight.ticks[..polls])
      case None => |sight.content|
      case Some(q) => q.size
    ensures |sight.content| <= end <= |Evolve(schedule, o, next).files[sight.inode]|
    ensures sight.content <= Evolve(schedule, o, next).files[sight.inode]
  {
    FollowupIsGood(schedule, o, next, sight, polls);
    ShownIsOpened(schedule, o, next, sight, polls);
    OneFileStaysOpen(schedule, o, sight.ticks, sight.spots, polls);
    FollowingKeepsUp(schedule, o, sight.ticks, sight.spots, polls);
    end := sight.spots[polls].Open().end;
    assert StretchFits(Evolve(schedule, o, next), sight.Stretches()[0]);
  }

  /** The last records of a file up to byte `end`: the last n of those that its beginning `c` holds,
      and all that come after it. */
  ghost predicate IsTailAndRest<R>(f: Framer, decode: Bytes -> Option<R>, file: Bytes, c: Bytes, end: nat, n: nat,
                                   emitted: seq<R>) {
    && end <= |file| && c <= file[..end]
    && var k, all := |Records(f, decode, c)|, Records(f, decode, file[..end]);
       k <= |all| && emitted == LastN(all, (if n < k then n else k) + (|all| - k))
  }

  /** Tail then follow is seamless: if the log fits one window when its size is asked for, nothing
      is cut there, and no file is created meanwhile, then what PblogTail has shown is the last
      records of the log up to the size that the last poll saw: the last n of those that were there
      at first, and every one appended since. */
  lemma FollowedTailIsSeamless<R>(f: Framer, decode: Bytes -> Option<R>, schedule: nat -> Turn, o: Origin, next: nat,
                                  sight: Sight, count: nat, polls: nat, emitted: seq<R>) returns (end: nat)
    requires f.Lawful() && count > 0
    requires TailRun(f, decode, schedule, o, next, sight, count, true, polls, emitted)
    requires |Evolve(schedule, o, next).files| == |o.fs.files|
    requires |sight.content| <= Tail.INITIAL_CHUNK && f.SeamlessAt(sight.content)
    ensures end == match LastSeen(schedule, o, sight.ticks[..polls])
      case None => |sight.content|
      case Some(q) => q.size
    ensures sight.inode + 1 == |o.fs.files| && end <= |Evolve(schedule, o, next).files[sight.inode]|
    ensures IsTailAndRest(f, decode, Evolve(schedule, o, next).files[sight.inode], sight.content, end, count, emitted)
  {
    end := OneFileIsFollowed(schedule, o, next, sight, polls);
    ShownPrefix(f, decode, Evolve(schedule, o, next), sight.inode, sight.content, end, count);
  }

  /** The tail of a log, followed by what one stretch adds to it. */
  lemma ShownPrefix<R>(f: Framer, decode: Bytes -> Option<R>, fs: FileSystem, inode: nat, c: Bytes, end: nat, n: nat)
    requires f.Lawful() && n > 0 && |c| <= Tail.INITIAL_CHUNK && f.SeamlessAt(c)
    requires inode < |fs.files| && c <= fs.files[inode] && |c| <= end <= |fs.files[inode]|
    ensures IsTailAndRest(f, decode, fs.files[inode], c, end, n,
      Tail.TailResult(f, decode, c, n) + StretchRecords(f, decode, fs, [Stretch(inode, |c|, end)]))
  {
    var file := fs.files[inode];
    var d := file[|c|..end];
    OneStretch(f, decode, fs, Stretch(inode, |c|, end));
    assert c + d == file[..end];
    HandOffIsSeamless(f, decode, c, d, n);
  }

  // ---------------------------------------------------------------- files that are opened again

  /** Poll m opens a file, and finds this one. */
  ghost predicate OpensAt(ticks: seq<nat>, spots: seq<Spot>, m: nat, inode: nat) {
    && m + 1 < |ticks| == |spots| && |spots[m].stretches| < |spots[m + 1].stretches|
    && spots[m + 1].Open().inode == inode
  }

  /** Poll m is the first one from poll i on that gets an answer. */
  ghost predicate NextAnswered(schedule: nat -> Turn, o: Origin, ticks: seq<nat>, i: nat, m: nat) {
    && i <= m && m + 1 < |ticks|
    && (forall j :: i <= j <= m ==> o.tick <= ticks[j])
    && (forall j :: i <= j < m ==> StatAnswer(schedule, o, ticks[j]).None?)
    && StatAnswer(schedule, o, ticks[m]).Some?
  }

  lemma {:induction false} NoAnswerNoChange(schedule: nat -> Turn, o: Origin, ticks: seq<nat>, spots: seq<Spot>,
                                            i: nat, m: nat)
    requires GoodRun(schedule, o, ticks, spots) && i <= m < |ticks|
    requires forall j :: i <= j < m ==> o.tick <= ticks[j] && StatAnswer(schedule, o, ticks[j]).None?
    ensures spots[m] == spots[i]
    decreases m
  {
    if i < m {
      NoAnswerNoChange(schedule, o, ticks, spots, i, m - 1);
      PollOfRun(schedule, o, ticks, spots, m - 1);
    }
  }

  lemma {:induction false} FirstAnswer(schedule: nat -> Turn, o: Origin, ticks: seq<nat>, spots: seq<Spot>,
                                       i: nat, m: nat) returns (first: nat)
    requires GoodRun(schedule, o, ticks, spots) && i <= m && m + 1 < |ticks|
    requires o.tick <= ticks[m] && StatAnswer(schedule, o, ticks[m]).Some?
    ensures first <= m && NextAnswered(schedule, o, ticks, i, first)
    decreases m - i
  {
    PollOfRun(schedule, o, ticks, spots, i);
    if StatAnswer(schedule, o, ticks[i]).Some? {
      first := i;
    } else {
      first := FirstAnswer(schedule, o, ticks, spots, i + 1, m);
    }
  }

  /** A poll opens a file exactly if its answer is not the file believed to be open; the file that it
      finds is the one that the path names a turn later. */
  lemma OpeningPoll(schedule: nat -> Turn, o: Origin, ticks: seq<nat>, spots: seq<Spot>, m: nat, inode: nat)
    requires GoodRun(schedule, o, ticks, spots) && m + 1 < |ticks|
    ensures o.tick <= ticks[m]
    ensures OpensAt(ticks, spots, m, inode) <==>
      var q := StatAnswer(schedule, o, ticks[m]);
      && q.Some? && q.value.inode != spots[m].believed
      && |Evolve(schedule, o, ticks[m] + 2).files| == inode + 1
    ensures OpensAt(ticks, spots, m, inode) ==> spots[m].believed < spots[m + 1].believed <= inode
  {
    PollOfRun(schedule, o, ticks, spots, m);
  }

  /** If the file that is open is opened again at all, the next answered poll does it. */
  lemma OpenedAgainAtOnce(schedule: nat -> Turn, o: Origin, ticks: seq<nat>, spots: seq<Spot>, i: nat, m: nat)
    requires GoodRun(schedule, o, ticks, spots) && i <= m < |ticks| && spots[i].stretches != []
    requires OpensAt(ticks, spots, m, spots[i].Open().inode)
    ensures NextAnswered(schedule, o, ticks, i, m) && spots[i].believed < spots[i].Open().inode
    ensures |Evolve(schedule, o, ticks[m] + 2).files| == spots[i].Open().inode + 1 && spots[m] == spots[i]
  {
    var fd := spots[i].Open().inode;
    RunIsSane(schedule, o, ticks, spots, i);
    OpeningPoll(schedule, o, ticks, spots, m, fd);
    var first := FirstAnswer(schedule, o, ticks, spots, i, m);
    NoAnswerNoChange(schedule, o, ticks, spots, i, first);
    BeliefsGrow(schedule, o, ticks, spots, i, m);
    OpensFirst(schedule, o, ticks, spots, i, first);
    if first < m {
      BeliefsGrow(schedule, o, ticks, spots, first + 1, m);
      assert false;
    }
  }

  /** The file that is open after poll i - 1 (after the log was first opened, if i is 0) is opened
      again, and shown again, exactly if it was not the one that the program believed it to be, and
      is still the newest when the next poll that gets an answer opens the log. */
  lemma FileIsOpenedAgainIff(schedule: nat -> Turn, o: Origin, ticks: seq<nat>, spots: seq<Spot>, i: nat)
    requires GoodRun(schedule, o, ticks, spots) && i < |ticks| && spots[i].stretches != []
    ensures (exists m: nat :: i <= m && OpensAt(ticks, spots, m, spots[i].Open().inode))
       <==> (exists m: nat :: NextAnswered(schedule, o, ticks, i, m) && spots[i].believed < spots[i].Open().inode
                              && |Evolve(schedule, o, ticks[m] + 2).files| == spots[i].Open().inode + 1)
  {
    var fd := spots[i].Open().inode;
    if m: nat :| i <= m && OpensAt(ticks, spots, m, fd) {
      OpenedAgainAtOnce(schedule, o, ticks, spots, i, m);
    }
    if m: nat :| NextAnswered(schedule, o, ticks, i, m) && spots[i].believed < fd
                 && |Evolve(schedule, o, ticks[m] + 2).files| == fd + 1 {
      NoAnswerNoChange(schedule, o, ticks, spots, i, m);
      OpensFirst(schedule, o, ticks, spots, i, m);
      OpeningPoll(schedule, o, ticks, spots, m, fd);
    }
  }

  /** If an older file is believed to be open, the next answer makes the program open the log. */
  lemma OpensFirst(schedule: nat -> Turn, o: Origin, ticks: seq<nat>, spots: seq<Spot>, i: nat, m: nat)
    requires GoodRun(schedule, o, ticks, spots) && NextAnswered(schedule, o, ticks, i, m)
    requires spots[m] == spots[i] && spots[i].stretches != [] && spots[i].believed < spots[i].Open().inode
    ensures StatAnswer(schedule, o, ticks[m]).value.inode >= spots[i].Open().inode
    ensures spots[m + 1].stretches != [] && spots[m + 1].believed >= spots[i].Open().inode
    ensures OpensAt(ticks, spots, m, spots[m + 1].Open().inode)
  {
    PollOfRun(schedule, o, ticks, spots, m);
    StatSees(schedule, o, ticks[m], spots[m], StatAnswer(schedule, o, ticks[m]).value);
    OpeningPoll(schedule, o, ticks, spots, m, spots[m + 1].Open().inode);
  }

  /** In terms of the log: poll j opened a file. It is opened again exactly if the log was rotated
      between the stat and the open of poll j, and not between then and the open of the next poll
      that gets an answer. */
  lemma RotationBetweenStatAndOpenRepeatsIff(schedule: nat -> Turn, o: Origin, ticks: seq<nat>, spots: seq<Spot>,
                                             j: nat, inode: nat)
    requires GoodRun(schedule, o, ticks, spots) && OpensAt(ticks, spots, j, inode)
    ensures o.tick <= ticks[j]
    ensures (exists m: nat :: j < m && OpensAt(ticks, spots, m, inode))
       <==> (exists m: nat :: NextAnswered(schedule, o, ticks, j + 1, m)
                              && |Evolve(schedule, o, ticks[j] + 1).files| < |Evolve(schedule, o, ticks[j] + 2).files|
                              && |Evolve(schedule, o, ticks[m] + 2).files| == |Evolve(schedule, o, ticks[j] + 2).files|)
  {
    OpeningPoll(schedule, o, ticks, spots, j, inode);
    PollOfRun(schedule, o, ticks, spots, j);
    SeenIsInTheLog(schedule, o, ticks[j], StatAnswer(schedule, o, ticks[j]).value);
    FileIsOpenedAgainIff(schedule, o, ticks, spots, j + 1);
  }

  lemma {:induction false} TicksGrow(schedule: nat -> Turn, o: Origin, ticks: seq<nat>, spots: seq<Spot>,
                                     i: nat, m: nat)
    requires GoodRun(schedule, o, ticks, spots) && i <= m < |ticks|
    ensures o.tick <= ticks[i] <= ticks[m]
    decreases m
  {
    if i < m {
      TicksGrow(schedule, o, ticks, spots, i, m - 1);
      PollOfRun(schedule, o, ticks, spots, m - 1);
    } else {
      RunIsSane(schedule, o, ticks, spots, i);
    }
  }

  /** The second time, at least as much of the file is read as the first time. */
  lemma OpenedAgainIsReadOn(schedule: nat -> Turn, o: Origin, ticks: seq<nat>, spots: seq<Spot>,
                            j: nat, m: nat, inode: nat)
    requires GoodRun(schedule, o, ticks, spots)
    requires j < m && OpensAt(ticks, spots, j, inode) && OpensAt(ticks, spots, m, inode)
    ensures spots[m] == spots[j + 1]
    ensures spots[j + 1].Open().end <= spots[m + 1].Open().end
  {
    PollOfRun(schedule, o, ticks, spots, j);
    OpenedAgainAtOnce(schedule, o, ticks, spots, j + 1, m);
    OpeningPoll(schedule, o, ticks, spots, m, inode);
    PollOfRun(schedule, o, ticks, spots, m);
    OpenedStretch(schedule, o, ticks, spots, j, inode);
    TicksGrow(schedule, o, ticks, spots, j + 1, m);
    SeenIsInTheLog(schedule, o, ticks[m], StatAnswer(schedule, o, ticks[m]).value);
    EvolveKeeps(schedule, o, ticks[m] + 1, ticks[m] + 2, inode);
    EvolveKeeps(schedule, o, ticks[j + 1], ticks[m] + 1, inode);
  }

  /** Everything that was shown of the file the first time is then shown again. */
  lemma OpenedAgainIsShownAgain<R>(f: Framer, decode: Bytes -> Option<R>, schedule: nat -> Turn, o: Origin,
                                   ticks: seq<nat>, spots: seq<Spot>, j: nat, m: nat, inode: nat)
    requires f.Lawful() && GoodRun(schedule, o, ticks, spots)
    requires j < m && OpensAt(ticks, spots, j, inode) && OpensAt(ticks, spots, m, inode)
    ensures o.tick <= ticks[m + 1]
    ensures var first, again, fs := spots[j + 1].Open(), spots[m + 1].Open(), Evolve(schedule, o, ticks[m + 1]);
      && spots[m + 1].stretches == spots[j].stretches + [first] + [again]
      && first.inode == again.inode == inode && first.start == again.start == 0
      && Records(f, decode, Covered(fs, first)) <= Records(f, decode, Covered(fs, again))
  {
    OpenedAgainIsReadOn(schedule, o, ticks, spots, j, m, inode);
    OpenedStretch(schedule, o, ticks, spots, j, inode);
    OpenedStretch(schedule, o, ticks, spots, m, inode);
    PrefixIsShown(f, decode, Evolve(schedule, o, ticks[m + 1]), spots[j + 1].Open(), spots[m + 1].Open());
  }

  lemma PrefixIsShown<R>(f: Framer, decode: Bytes -> Option<R>, fs: FileSystem, a: Stretch, b: Stretch)
    requires f.Lawful() && HasBytes(fs, a.inode, b.end) && b == a.(end := b.end) && a.start <= a.end <= b.end
    ensures Records(f, decode, Covered(fs, a)) <= Records(f, decode, Covered(fs, b))
  {
    var file := fs.files[a.inode];
    assert Covered(fs, b) == Covered(fs, a) + file[a.end..b.end];
    RecordsAppend(f, decode, Covered(fs, a), file[a.end..b.end]);
  }

  /** What a poll that opens a file adds to the stretches. */
  lemma OpenedStretch(schedule: nat -> Turn, o: Origin, ticks: seq<nat>, spots: seq<Spot>, m: nat, inode: nat)
    requires GoodRun(schedule, o, ticks, spots) && OpensAt(ticks, spots, m, inode)
    ensures var s := spots[m + 1].Open();
      && spots[m + 1].stretches == spots[m].stretches + [s] && s == Stretch(inode, 0, s.end)
      && o.tick <= ticks[m] && o.tick <= ticks[m + 1]
      && HasBytes(Evolve(schedule, o, ticks[m + 1]), inode, s.end)
  {
    PollOfRun(schedule, o, ticks, spots, m);
    assert PollAt(schedule, o, ticks, spots, m);
    var n := |spots[m].stretches|;
    assert spots[m + 1].stretches[..n] == spots[m].stretches;
    RunIsSane(schedule, o, ticks, spots, m + 1);
  }

  // ---------------------------------------------------------------- files that are left behind

  /** What a file holds from where it was entered on. */
  function Entered(fs: FileSystem, s: Stretch): Bytes {
    if s.inode < |fs.files| && s.start <= |fs.files[s.inode]| then fs.files[s.inode][s.start..] else []
  }

  /** What it holds behind what was read. */
  function Unread(fs: FileSystem, s: Stretch): Bytes {
    if s.inode < |fs.files| && s.end <= |fs.files[s.inode]| then fs.files[s.inode][s.end..] else []
  }

  /** The records that these bytes complete or hold: nothing of them was shown. */
  function Late<R>(f: Framer, decode: Bytes -> Option<R>, fs: FileSystem, s: Stretch): seq<R> {
    Records(f, decode, f.Rest(Covered(fs, s)) + Unread(fs, s))
  }

  ghost predicate NothingLate<R>(f: Framer, decode: Bytes -> Option<R>, fs: FileSystem, stretches: seq<Stretch>) {
    forall j :: 0 <= j < |stretches| ==> Late(f, decode, fs, stretches[j]) == []
  }

  /** The records that the files hold from where they were entered on. */
  function EnteredRecords<R>(f: Framer, decode: Bytes -> Option<R>, fs: FileSystem, stretches: seq<Stretch>): seq<R>
    decreases |stretches|
  {
    if stretches == [] then []
    else
      var n := |stretches| - 1;
      EnteredRecords(f, decode, fs, stretches[..n]) + Records(f, decode, Entered(fs, stretches[n]))
  }

  lemma EnteredIsReadAndLate<R>(f: Framer, decode: Bytes -> Option<R>, fs: FileSystem, s: Stretch)
    requires f.Lawful() && StretchFits(fs, s)
    ensures Records(f, decode, Entered(fs, s)) == Records(f, decode, Covered(fs, s)) + Late(f, decode, fs, s)
  {
    if s.end <= |fs.files[s.inode]| {
      assert Entered(fs, s) == Covered(fs, s) + Unread(fs, s);
      RecordsAppend(f, decode, Covered(fs, s), Unread(fs, s));
    } else {
      f.NothingToParse();
      assert [] + Unread(fs, s) == [];
    }
  }

  lemma BothOrNone<T>(a: seq<T>, b: seq<T>, x: seq<T>, y: seq<T>)
    requires |a| <= |b|
    ensures a + x == b + (x + y) <==> a == b && y == []
  {
    if a + x == b + (x + y) {
      assert |a| + |x| == |b| + |x| + |y|;
      assert a == (a + x)[..|a|] && b == (b + (x + y))[..|b|];
    }
  }

  lemma NothingLateSnoc<R>(f: Framer, decode: Bytes -> Option<R>, fs: FileSystem, stretches: seq<Stretch>, s: Stretch)
    ensures NothingLate(f, decode, fs, stretches + [s])
       <==> NothingLate(f, decode, fs, stretches) && Late(f, decode, fs, s) == []
  {
    var all := stretches + [s];
    assert all[|stretches|] == s;
    assert forall j :: 0 <= j < |stretches| ==> all[j] == stretches[j];
  }

  lemma EnteredSnoc<R>(f: Framer, decode: Bytes -> Option<R>, fs: FileSystem, stretches: seq<Stretch>, s: Stretch)
    ensures EnteredRecords(f, decode, fs, stretches + [s])
         == EnteredRecords(f, decode, fs, stretches) + Records(f, decode, Entered(fs, s))
  {
    assert (stretches + [s])[..|stretches|] == stretches;
  }

  /** What was shown of these files is all that they hold from where they were entered on. */
  ghost predicate ShownWhole<R>(f: Framer, decode: Bytes -> Option<R>, fs: FileSystem, stretches: seq<Stretch>) {
    StretchRecords(f, decode, fs, stretches) == EnteredRecords(f, decode, fs, stretches)
  }

  /** Never more than that is shown. */
  ghost predicate ShownAtMost<R>(f: Framer, decode: Bytes -> Option<R>, fs: FileSystem, stretches: seq<Stretch>) {
    |StretchRecords(f, decode, fs, stretches)| <= |EnteredRecords(f, decode, fs, stretches)|
  }

  lemma ShownSnoc<R>(f: Framer, decode: Bytes -> Option<R>, fs: FileSystem, stretches: seq<Stretch>, s: Stretch)
    requires f.Lawful() && StretchFits(fs, s) && ShownAtMost(f, decode, fs, stretches)
    ensures ShownAtMost(f, decode, fs, stretches + [s])
    ensures ShownWhole(f, decode, fs, stretches + [s])
       <==> ShownWhole(f, decode, fs, stretches) && Late(f, decode, fs, s) == []
  {
    EnteredIsReadAndLate(f, decode, fs, s);
    StretchSnoc(f, decode, fs, stretches, s);
    EnteredSnoc(f, decode, fs, stretches, s);
    BothOrNone(StretchRecords(f, decode, fs, stretches), EnteredRecords(f, decode, fs, stretches),
               Records(f, decode, Covered(fs, s)), Late(f, decode, fs, s));
  }

  /** What was shown of some files is all that they hold from where they were entered on exactly if
      in none of them the bytes behind what was read complete a record. */
  lemma {:induction false} NothingIsMissingIff<R>(f: Framer, decode: Bytes -> Option<R>, fs: FileSystem,
                                                  stretches: seq<Stretch>)
    requires f.Lawful() && AllStretchesFit(fs, stretches)
    ensures ShownAtMost(f, decode, fs, stretches)
    ensures ShownWhole(f, decode, fs, stretches) <==> NothingLate(f, decode, fs, stretches)
    decreases |stretches|
  {
    if stretches != [] {
      var n := |stretches| - 1;
      var earlier, s := stretches[..n], stretches[n];
      assert AllStretchesFit(fs, earlier) && StretchFits(fs, s);
      NothingIsMissingIff(f, decode, fs, earlier);
      ShownSnoc(f, decode, fs, earlier, s);
      NothingLateSnoc(f, decode, fs, earlier, s);
      assert stretches == earlier + [s];
    }
  }

  /** In poll i the program leaves the file of this stretch, which it has read to the size that it
      had at the last answer, if that answer named it. */
  ghost predicate LeftAt(schedule: nat -> Turn, o: Origin, ticks: seq<nat>, spots: seq<Spot>, i: nat, s: Stretch) {
    && i + 1 < |ticks| == |spots| && spots[i].stretches != [] && spots[i].Open() == s
    && |spots[i].stretches| < |spots[i + 1].stretches|
    && match LastSeen(schedule, o, ticks[..i])
       case None => s == if spots[0].stretches == [] then s else spots[0].Open()
       case Some(q) => q.inode <= s.inode && (q.inode == s.inode ==> s.end == q.size)
  }

  lemma {:induction false} WhereItWasLeft(schedule: nat -> Turn, o: Origin, ticks: seq<nat>, spots: seq<Spot>,
                                          m: nat, j: nat) returns (i: nat)
    requires GoodRun(schedule, o, ticks, spots) && |spots[0].stretches| == 1
    requires m < |ticks| && j + 1 < |spots[m].stretches|
    ensures LeftAt(schedule, o, ticks, spots, i, spots[m].stretches[j])
    decreases m
  {
    PollOfRun(schedule, o, ticks, spots, m - 1);
    assert PollAt(schedule, o, ticks, spots, m - 1);
    if j + 1 < |spots[m - 1].stretches| {
      i := WhereItWasLeft(schedule, o, ticks, spots, m - 1, j);
    } else {
      i := m - 1;
      FollowingKeepsUp(schedule, o, ticks, spots, i);
    }
  }

  /** The files that a run of FollowFrom has left behind: each was left in some poll, read to the
      size that it had at the last stat that named it; and what was shown of them is all that they
      hold from where they were entered on exactly if in none of them the bytes appended after that
      complete a record. */
  lemma FilesLeftBehindAreShownIff<R>(f: Framer, decode: Bytes -> Option<R>, schedule: nat -> Turn, o: Origin,
                                      opening: nat, next: nat, ticks: seq<nat>, spots: seq<Spot>, polls: nat,
                                      at: nat, inode: nat)
    requires f.Lawful() && Followed(schedule, o, opening, next, ticks, spots, polls, at, inode)
    requires HasBytes(Evolve(schedule, o, opening), inode, at) && o.tick <= next
    requires AllStretchesFit(Evolve(schedule, o, next), spots[polls].stretches)
    ensures spots[polls].stretches != []
    ensures var fs, left := Evolve(schedule, o, next), spots[polls].stretches[..|spots[polls].stretches| - 1];
      && (forall s :: s in left ==> exists i: nat :: LeftAt(schedule, o, ticks, spots, i, s))
      && (ShownWhole(f, decode, fs, left) <==> NothingLate(f, decode, fs, left))
  {
    FollowedIsGood(schedule, o, opening, next, ticks, spots, polls, at, inode);
    RunIsSane(schedule, o, ticks, spots, polls);
    var all := spots[polls].stretches;
    var left := all[..|all| - 1];
    forall s | s in left
      ensures exists i: nat :: LeftAt(schedule, o, ticks, spots, i, s)
    {
      var j: nat :| j < |left| && left[j] == s;
      var i := WhereItWasLeft(schedule, o, ticks, spots, polls, j);
    }
    assert AllStretchesFit(Evolve(schedule, o, next), left) by {
      assert forall j :: 0 <= j < |left| ==> left[j] == all[j];
    }
    NothingIsMissingIff(f, decode, Evolve(schedule, o, next), left);
  }

  // ---------------------------------------------------------------- two runs

  /** Nothing happens, but for some changes in turns k and k + 1. */
  function Quiet(k: nat, first: seq<Change>, second: seq<Change>): nat -> Turn {
    (i: nat) => Turn(if i == k then first else if i == k + 1 then second else [], false, 0)
  }

  const EMPTY_LOG := FileSystem([[]], true)

  lemma {:induction false} QuietLog(k: nat, first: seq<Change>, second: seq<Change>, next: nat)
    ensures Evolve(Quiet(k, first, second), Origin(EMPTY_LOG, 0), next)
         == if next <= k then EMPTY_LOG
            else if next == k + 1 then ApplyAll(EMPTY_LOG, first)
            else ApplyAll(ApplyAll(EMPTY_LOG, first), second)
    decreases next
  {
    if next > 0 {
      QuietLog(k, first, second, next - 1);
    }
  }

  lemma TwoChanges(fs: FileSystem, c: Change, d: Change)
    ensures ApplyAll(fs, [c, d]) == Apply(Apply(fs, c), d)
  {
    assert [c, d][1..] == [d] && [d][1..] == [];
    assert ApplyAll(Apply(fs, c), [d]) == ApplyAll(Apply(Apply(fs, c), d), []);
  }

  /** The end of the first file is missed. */
  lemma EndIsMissed(x: Bytes, next: nat, ticks: seq<nat>, spots: seq<Spot>)
    requires Followed(Quiet(2, [Append(x), Rotate(true)], []), Origin(EMPTY_LOG, 0), 0, next, ticks, spots, 2, 0, 0)
    ensures spots[2].stretches == [Stretch(0, 0, 0), Stretch(1, 0, 0)]
    ensures Evolve(Quiet(2, [Append(x), Rotate(true)], []), Origin(EMPTY_LOG, 0), next) == FileSystem([x, []], true)
  {
    var schedule, o := Quiet(2, [Append(x), Rotate(true)], []), Origin(EMPTY_LOG, 0);
    TwoChanges(EMPTY_LOG, Append(x), Rotate(true));
    assert [] + x == x;
    assert ApplyAll(EMPTY_LOG, [Append(x), Rotate(true)]).files == [x, []];
    QuietLog(2, [Append(x), Rotate(true)], [], 1);
    QuietLog(2, [Append(x), Rotate(true)], [], 2);
    QuietLog(2, [Append(x), Rotate(true)], [], 3);
    QuietLog(2, [Append(x), Rotate(true)], [], 4);
    QuietLog(2, [Append(x), Rotate(true)], [], next);
    assert PollAt(schedule, o, ticks, spots, 0);
    assert spots[1] == spots[0] && ticks[1] == 2;
    assert PollAt(schedule, o, ticks, spots, 1);
    assert spots[2].stretches[..1] == [Stretch(0, 0, 0)];
  }

  /** A run of two polls on an empty log. Something is appended and the log is rotated between the
      polls: nothing of it is shown, whatever it is. */
  method MissesTheEndOfAFile<R>(f: Framer, decode: Bytes -> Option<R>, x: Bytes)
      returns (emitted: seq<R>, fs: FileSystem)
    requires f.Lawful()
    ensures emitted == [] && fs.files == [x, []]
  {
    var schedule := Quiet(2, [Append(x), Rotate(true)], []);
    var kernel := new Kernel(schedule, EMPTY_LOG);
    ghost var o := Origin(EMPTY_LOG, 0);
    var outcome;
    ghost var stretches, ticks, spots;
    emitted, outcome, stretches, ticks, spots := FollowFrom(f, decode, kernel, 0, 0, 2, (k: nat) => true, o);
    QuietLog(2, [Append(x), Rotate(true)], [], kernel.tick);
    TwoChanges(EMPTY_LOG, Append(x), Rotate(true));
    EndIsMissed(x, kernel.tick, ticks, spots);
    NothingInEmptyStretches(f, decode, kernel.fs, 0, 1);
    fs := kernel.fs;
  }

  lemma NothingInEmptyStretches<R>(f: Framer, decode: Bytes -> Option<R>, fs: FileSystem, a: nat, b: nat)
    requires f.Lawful()
    ensures StretchRecords(f, decode, fs, [Stretch(a, 0, 0), Stretch(b, 0, 0)]) == []
  {
    f.NothingToParse();
    OneStretch(f, decode, fs, Stretch(a, 0, 0));
    StretchSnoc(f, decode, fs, [Stretch(a, 0, 0)], Stretch(b, 0, 0));
    assert [Stretch(a, 0, 0)] + [Stretch(b, 0, 0)] == [Stretch(a, 0, 0), Stretch(b, 0, 0)];
    assert Covered(fs, Stretch(a, 0, 0)) == [] && Covered(fs, Stretch(b, 0, 0)) == [];
  }

  lemma ThreeFiles(x: Bytes, y: Bytes)
    ensures ApplyAll(EMPTY_LOG, [Rotate(true), Append(x)]) == FileSystem([[], x], true)
    ensures ApplyAll(FileSystem([[], x], true), [Rotate(true), Append(y)]) == FileSystem([[], x, y], true)
  {
    TwoChanges(EMPTY_LOG, Rotate(true), Append(x));
    TwoChanges(FileSystem([[], x], true), Rotate(true), Append(y));
    assert [] + x == x && [] + y == y;
    assert ApplyAll(EMPTY_LOG, [Rotate(true), Append(x)]).files == [[], x];
    assert ApplyAll(FileSystem([[], x], true), [Rotate(true), Append(y)]).files == [[], x, y];
  }

  /** The third file is opened twice. */
  lemma LastFileIsReadTwice(x: Bytes, y: Bytes, next: nat, ticks: seq<nat>, spots: seq<Spot>)
    requires |y| <= |x|
    requires var schedule := Quiet(1, [Rotate(true), Append(x)], [Rotate(true), Append(y)]);
      Followed(schedule, Origin(EMPTY_LOG, 0), 0, next, ticks, spots, 2, 0, 0)
    ensures spots[2].stretches == [Stretch(0, 0, 0), Stretch(2, 0, |y|), Stretch(2, 0, |y|)]
    ensures Evolve(Quiet(1, [Rotate(true), Append(x)], [Rotate(true), Append(y)]), Origin(EMPTY_LOG, 0), next)
         == FileSystem([[], x, y], true)
  {
    var a, b := [Rotate(true), Append(x)], [Rotate(true), Append(y)];
    var schedule, o := Quiet(1, a, b), Origin(EMPTY_LOG, 0);
    ThreeFiles(x, y);
    QuietLog(1, a, b, 1);
    QuietLog(1, a, b, 2);
    QuietLog(1, a, b, 3);
    assert PollAt(schedule, o, ticks, spots, 0);
    QuietLog(1, a, b, ticks[1]);
    assert spots[1].stretches[..1] == [Stretch(0, 0, 0)];
    assert spots[1] == Spot([Stretch(0, 0, 0), Stretch(2, 0, |y|)], 1);
    assert PollAt(schedule, o, ticks, spots, 1);
    QuietLog(1, a, b, ticks[1] + 1);
    QuietLog(1, a, b, ticks[1] + 2);
    QuietLog(1, a, b, next);
    assert spots[2].stretches[..2] == spots[1].stretches;
  }

  /** A run of two polls on an empty log, which is rotated before the stat of the first poll and
      again before its open: what the third file then holds is shown twice. */
  method ShowsAFileTwice<R>(f: Framer, decode: Bytes -> Option<R>, x: Bytes, y: Bytes)
      returns (emitted: seq<R>, fs: FileSystem)
    requires f.Lawful() && |y| <= |x|
    ensures emitted == Records(f, decode, y) + Records(f, decode, y) && fs.files == [[], x, y]
  {
    var schedule := Quiet(1, [Rotate(true), Append(x)], [Rotate(true), Append(y)]);
    var kernel := new Kernel(schedule, EMPTY_LOG);
    ghost var o := Origin(EMPTY_LOG, 0);
    var outcome;
    ghost var stretches, ticks, spots;
    emitted, outcome, stretches, ticks, spots := FollowFrom(f, decode, kernel, 0, 0, 2, (k: nat) => true, o);
    QuietLog(1, [Rotate(true), Append(x)], [Rotate(true), Append(y)], kernel.tick);
    ThreeFiles(x, y);
    LastFileIsReadTwice(x, y, kernel.tick, ticks, spots);
    ShownTwice(f, decode, kernel.fs, x, y);
    fs := kernel.fs;
  }

  lemma ShownTwice<R>(f: Framer, decode: Bytes -> Option<R>, fs: FileSystem, x: Bytes, y: Bytes)
    requires f.Lawful() && fs.files == [[], x, y]
    ensures StretchRecords(f, decode, fs, [Stretch(0, 0, 0), Stretch(2, 0, |y|), Stretch(2, 0, |y|)])
         == Records(f, decode, y) + Records(f, decode, y)
  {
    var s, t := Stretch(0, 0, 0), Stretch(2, 0, |y|);
    f.NothingToParse();
    OneStretch(f, decode, fs, s);
    StretchSnoc(f, decode, fs, [s], t);
    StretchSnoc(f, decode, fs, [s] + [t], t);
    assert [s] + [t] + [t] == [s, t, t];
    assert Covered(fs, s) == [] && Covered(fs, t) == y[0..|y|] == y;
    assert [] + Records(f, decode, y) == Records(f, decode, y);
  }
}
