/** followFrom and PblogTail of cmd/bfe-pblog-tool/tail/pb_tail.go: emitting what is appended to a
    log, and the hand-off from the last n records to what is appended later. */
module Follow {
  import opened Sequences
  import opened Framing
  import opened FileSystem
  import opened Kernel
  import opened PbParse
  import Tail

  /** Bytes start..end were read, without a gap, from one opening of one file. */
  datatype Stretch = Stretch(inode: nat, start: nat, end: nat)

  function Covered(fs: FileSystem, s: Stretch): Bytes {
    if s.inode < |fs.files| && s.start <= s.end <= |fs.files[s.inode]|
    then fs.files[s.inode][s.start..s.end] else []
  }

  /** The records of each stretch, parsed on its own, stretch after stretch. */
  function StretchRecords<R>(f: Framer, decode: Bytes -> Option<R>, fs: FileSystem, stretches: seq<Stretch>): seq<R>
    decreases |stretches|
  {
    if stretches == [] then []
    else
      var n := |stretches| - 1;
      StretchRecords(f, decode, fs, stretches[..n]) + Records(f, decode, Covered(fs, stretches[n]))
  }

  ghost predicate StretchFits(fs: FileSystem, s: Stretch) {
    s.inode < |fs.files| && s.start <= s.end && (s.start < s.end ==> s.end <= |fs.files[s.inode]|)
  }

  ghost predicate AllStretchesFit(fs: FileSystem, stretches: seq<Stretch>) {
    forall i :: 0 <= i < |stretches| ==> StretchFits(fs, stretches[i])
  }

  lemma {:induction false} StretchesSurviveGrowth<R>(f: Framer, decode: Bytes -> Option<R>,
                                                     fs: FileSystem, r: FileSystem, stretches: seq<Stretch>)
    requires Grows(fs, r) && AllStretchesFit(fs, stretches) && f.Lawful()
    ensures AllStretchesFit(r, stretches)
    ensures StretchRecords(f, decode, r, stretches) == StretchRecords(f, decode, fs, stretches)
    decreases |stretches|
  {
    if stretches != [] {
      var last := stretches[|stretches| - 1];
      StretchesSurviveGrowth(f, decode, fs, r, stretches[..|stretches| - 1]);
      assert StretchFits(fs, last);
      assert Covered(r, last) == Covered(fs, last);
    }
  }

  lemma StretchSnoc<R>(f: Framer, decode: Bytes -> Option<R>, fs: FileSystem, stretches: seq<Stretch>, s: Stretch)
    ensures StretchRecords(f, decode, fs, stretches + [s])
         == StretchRecords(f, decode, fs, stretches) + Records(f, decode, Covered(fs, s))
  {
    assert (stretches + [s])[..|stretches|] == stretches;
  }

  /** The loop variables of followFrom: the open file, how far it has been read, which file the
      program believes it to be, and the bytes kept from the last parse. */
  datatype Cursor = Cursor(fd: nat, currentOffset: nat, currentInode: nat, remainder: Bytes)

  /** What has been emitted is exactly the records of the stretches read so far, and the
      remainder is what a parse of the last one leaves over. */
  ghost predicate Following<R>(f: Framer, decode: Bytes -> Option<R>, fs: FileSystem, past: seq<Stretch>,
                               start: nat, c: Cursor, emitted: seq<R>) {
    var last := Stretch(c.fd, start, c.currentOffset);
    && f.Lawful()
    && AllStretchesFit(fs, past + [last])
    && emitted == StretchRecords(f, decode, fs, past + [last])
    && c.remainder == f.Rest(Covered(fs, last))
  }

  lemma FollowingSurvivesGrowth<R>(f: Framer, decode: Bytes -> Option<R>, fs: FileSystem, r: FileSystem,
                                   past: seq<Stretch>, start: nat, c: Cursor, emitted: seq<R>)
    requires Following(f, decode, fs, past, start, c, emitted) && Grows(fs, r)
    ensures Following(f, decode, r, past, start, c, emitted)
  {
    var last := Stretch(c.fd, start, c.currentOffset);
    StretchesSurviveGrowth(f, decode, fs, r, past + [last]);
    assert StretchFits(fs, (past + [last])[|past|]);
    assert Covered(r, last) == Covered(fs, last);
  }

  /** Emits the records found in one chunk. emit(k) says whether the k-th emission of the run is
      accepted; the first refusal ends the run. */
  method EmitAll<R>(emitted0: seq<R>, records: seq<R>, emit: nat -> bool) returns (emitted: seq<R>, ok: bool)
    ensures emitted0 <= emitted <= emitted0 + records
    ensures ok ==> emitted == emitted0 + records
    ensures !ok ==> |emitted| < |emitted0 + records| && !emit(|emitted|)
  {
    emitted, ok := emitted0, true;
    for i := 0 to |records|
      invariant emitted == emitted0 + records[..i]
    {
      if !emit(|emitted|) {
        return emitted, false;
      }
      emitted := emitted + [records[i]];
    }
  }

  /** The inner loop of followFrom: parses remainder and chunk until only a partial record is
      left; terminates because each round but the last makes the buffer shorter. */
  method ParseAppended<R>(f: Framer, decode: Bytes -> Option<R>, remainder0: Bytes, chunk: Bytes,
                          emitted0: seq<R>, emit: nat -> bool)
      returns (remainder: Bytes, emitted: seq<R>, ok: bool)
    requires f.Lawful() && chunk != []
    ensures emitted <= emitted0 + Records(f, decode, remainder0 + chunk)
    ensures ok ==> emitted == emitted0 + Records(f, decode, remainder0 + chunk)
    ensures ok ==> remainder == f.Rest(remainder0 + chunk)
    ensures !ok ==> !emit(|emitted|)
  {
    var buffer := remainder0 + chunk;
    ghost var all := emitted0 + Records(f, decode, buffer);
    remainder, emitted, ok := remainder0, emitted0, true;
    f.RestIsIdle(buffer);
    var loopBuf := buffer;
    ghost var first := true;
    while |loopBuf| > 0
      invariant first ==> loopBuf == buffer && emitted == emitted0
      invariant !first ==> loopBuf == remainder == f.Rest(buffer) && emitted == all
      invariant ok
      decreases |loopBuf|, first
    {
      var records, rem, _ := PbBuffParse(f, decode, loopBuf);
      assert f.KeepsTail(loopBuf);
      if |records| == 0 && |rem| == |loopBuf| {
        remainder := rem;
        assert rem == loopBuf;
        break;
      }
      emitted, ok := EmitAll(emitted, records, emit);
      if !ok {
        return;
      }
      loopBuf := rem;
      remainder := rem;
      first := false;
    }
  }

  /** How a run of followFrom stands: polling, stopped because emit refused, or failed. */
  datatype Outcome = Going | Stopped | Failed

  /** A run that has ended has emitted the beginning of what it read. */
  ghost predicate Ended<R>(f: Framer, decode: Bytes -> Option<R>, fs: FileSystem, stretches: seq<Stretch>,
                           emitted: seq<R>) {
    AllStretchesFit(fs, stretches) && emitted <= StretchRecords(f, decode, fs, stretches)
  }

  function Last(past: seq<Stretch>, start: nat, c: Cursor): seq<Stretch> {
    past + [Stretch(c.fd, start, c.currentOffset)]
  }

  /** Where following stands between two polls: what has been read of each file opened so far, the
      last of which is open, and which file the program believes that to be. */
  datatype Spot = Spot(stretches: seq<Stretch>, believed: nat) {
    function Open(): Stretch
      requires stretches != []
    {
      stretches[|stretches| - 1]
    }
  }

  function SpotOf(past: seq<Stretch>, start: nat, c: Cursor): Spot {
    Spot(Last(past, start, c), c.currentInode)
  }

  predicate HasBytes(fs: FileSystem, inode: nat, size: nat) {
    inode < |fs.files| && size <= |fs.files[inode]|
  }

  /** There are bytes in the file behind the offset. */
  predicate HasMore(fs: FileSystem, inode: nat, offset: nat) {
    inode < |fs.files| && offset < |fs.files[inode]|
  }

  /** Reading more bytes and parsing them behind the remainder extends the last stretch. */
  lemma StretchGrows<R>(f: Framer, decode: Bytes -> Option<R>, fs: FileSystem, past: seq<Stretch>,
                        a: Stretch, b: Stretch, chunk: Bytes)
    requires f.Lawful() && Covered(fs, b) == Covered(fs, a) + chunk
    ensures StretchRecords(f, decode, fs, past + [b])
         == StretchRecords(f, decode, fs, past + [a]) + Records(f, decode, f.Rest(Covered(fs, a)) + chunk)
    ensures f.Rest(Covered(fs, b)) == f.Rest(f.Rest(Covered(fs, a)) + chunk)
  {
    var w := Covered(fs, a);
    StretchSnoc(f, decode, fs, past, a);
    StretchSnoc(f, decode, fs, past, b);
    RecordsAppend(f, decode, w, chunk);
    f.Append(w, chunk);
    Reassociate(StretchRecords(f, decode, fs, past), Records(f, decode, w), Records(f, decode, f.Rest(w) + chunk));
  }

  lemma LastStretchMoves(fs: FileSystem, past: seq<Stretch>, a: Stretch, n: nat)
    requires AllStretchesFit(fs, past + [a]) && a.inode < |fs.files| && a.end + n <= |fs.files[a.inode]|
    ensures AllStretchesFit(fs, past + [a.(end := a.end + n)])
    ensures Covered(fs, a.(end := a.end + n)) == Covered(fs, a) + fs.files[a.inode][a.end..a.end + n]
  {
    assert StretchFits(fs, (past + [a])[|past|]);
    var b := a.(end := a.end + n);
    forall i | 0 <= i < |past + [b]|
      ensures StretchFits(fs, (past + [b])[i])
    {
      assert i < |past| ==> (past + [b])[i] == (past + [a])[i];
    }
  }

  /** Where the cursor is once a chunk of n bytes has been read and parsed behind the remainder. */
  function After(f: Framer, c: Cursor, n: nat, chunk: Bytes): Cursor {
    c.(currentOffset := c.currentOffset + n, remainder := f.Rest(c.remainder + chunk))
  }

  lemma ChunkFollows<R>(f: Framer, decode: Bytes -> Option<R>, fs: FileSystem, past: seq<Stretch>, start: nat,
                        c: Cursor, emitted: seq<R>, n: nat, chunk: Bytes)
    requires Following(f, decode, fs, past, start, c, emitted)
    requires c.fd < |fs.files| && c.currentOffset + n <= |fs.files[c.fd]|
    requires chunk == fs.files[c.fd][c.currentOffset..c.currentOffset + n]
    ensures Following(f, decode, fs, past, start, After(f, c, n, chunk),
                      emitted + Records(f, decode, c.remainder + chunk))
  {
    var a := Stretch(c.fd, start, c.currentOffset);
    assert StretchFits(fs, (past + [a])[|past|]);
    var b := a.(end := a.end + n);
    LastStretchMoves(fs, past, a, n);
    StretchGrows(f, decode, fs, past, a, b, chunk);
    assert Covered(fs, b) == Covered(fs, a) + chunk;
    assert After(f, c, n, chunk).remainder == f.Rest(Covered(fs, b));
  }

  lemma FollowingEnds<R>(f: Framer, decode: Bytes -> Option<R>, fs: FileSystem, past: seq<Stretch>, start: nat,
                         c: Cursor, d: Cursor, all: seq<R>, emitted: seq<R>)
    requires Following(f, decode, fs, past, start, c, all) && emitted <= all
    requires d.fd == c.fd && d.currentOffset == c.currentOffset
    ensures Ended(f, decode, fs, Last(past, start, d), emitted)
    ensures all == StretchRecords(f, decode, fs, Last(past, start, d))
  {
  }

  /** One io.ReadFull of the appended bytes, and the parsing of what it returned; n is 0 at the
      end of the file. */
  method ReadChunk<R>(f: Framer, decode: Bytes -> Option<R>, fs: FileSystem, c0: Cursor, chunkSize: nat,
                      emitted0: seq<R>, emit: nat -> bool, ghost past: seq<Stretch>, ghost start: nat)
      returns (c: Cursor, emitted: seq<R>, n: nat, ok: bool)
    requires Following(f, decode, fs, past, start, c0, emitted0) && chunkSize > 0
    ensures c == c0.(currentOffset := c0.currentOffset + n, remainder := c.remainder)
    ensures n <= chunkSize
    ensures ok ==> Following(f, decode, fs, past, start, c, emitted)
    ensures Ended(f, decode, fs, Last(past, start, c), emitted)
    ensures n == 0 ==> ok && !HasMore(fs, c.fd, c.currentOffset)
    ensures !ok ==> !emit(|emitted|)
  {
    c, emitted, n, ok := c0, emitted0, 0, true;
    ghost var a := Stretch(c.fd, start, c.currentOffset);
    assert StretchFits(fs, (past + [a])[|past|]);
    var file := fs.files[c.fd];
    if c.currentOffset < |file| {
      n := if chunkSize < |file| - c.currentOffset then chunkSize else |file| - c.currentOffset;
      var chunk := file[c.currentOffset..c.currentOffset + n];
      ghost var all := emitted + Records(f, decode, c.remainder + chunk);
      ghost var next := After(f, c, n, chunk);
      ChunkFollows(f, decode, fs, past, start, c, emitted, n, chunk);
      var rest;
      rest, emitted, ok := ParseAppended(f, decode, c.remainder, chunk, emitted, emit);
      c := c.(currentOffset := c.currentOffset + n, remainder := rest);
      FollowingEnds(f, decode, fs, past, start, next, c, all, emitted);
      assert ok ==> c == next && emitted == all;
    } else {
      FollowingEnds(f, decode, fs, past, start, c, c, emitted, emitted);
    }
  }

  /** The last of the system calls made since turn `from` failed, or found that the path names
      nothing. */
  ghost predicate CallFailed(kernel: Kernel, from: nat)
    reads kernel
  {
    from < kernel.tick && (kernel.schedule(kernel.tick - 1).fault || !kernel.fs.named)
  }

  /** Why a run ends early: a failed system call, or emit refused a record. */
  ghost predicate EndsFor(outcome: Outcome, kernel: Kernel, from: nat, emitted: nat, emit: nat -> bool)
    reads kernel
  {
    match outcome
    case Going => true
    case Stopped => !emit(emitted)
    case Failed => CallFailed(kernel, from)
  }

  /** A system call begins; what was followed so far stays as it is. */
  method Call<R>(f: Framer, decode: Bytes -> Option<R>, kernel: Kernel, ghost past: seq<Stretch>, ghost start: nat,
                 c: Cursor, emitted: seq<R>, ghost o: Origin) returns (t: Turn)
    requires kernel.fs.Valid() && kernel.Since(o) && Following(f, decode, kernel.fs, past, start, c, emitted)
    modifies kernel
    ensures kernel.fs.Valid() && kernel.Since(o) && Following(f, decode, kernel.fs, past, start, c, emitted)
    ensures t == kernel.schedule(old(kernel.tick)) && kernel.tick == old(kernel.tick) + 1
  {
    t := kernel.Enter();
    ChangesGrow(old(kernel.fs), t.changes);
    FollowingSurvivesGrowth(f, decode, old(kernel.fs), kernel.fs, past, start, c, emitted);
  }

  /** One round of the loop that reads what was appended; n is 0 at the end of the file. */
  method ReadNext<R>(f: Framer, decode: Bytes -> Option<R>, kernel: Kernel, c0: Cursor, toRead: nat,
                     emitted0: seq<R>, emit: nat -> bool, ghost past: seq<Stretch>, ghost start: nat, ghost o: Origin)
      returns (c: Cursor, emitted: seq<R>, n: nat, outcome: Outcome)
    requires kernel.fs.Valid() && kernel.Since(o) && toRead > 0
    requires Following(f, decode, kernel.fs, past, start, c0, emitted0)
    modifies kernel
    ensures kernel.fs.Valid() && kernel.Since(o)
    ensures kernel.tick == old(kernel.tick) + 1
    ensures c.fd == c0.fd && c.currentInode == c0.currentInode
    ensures c.currentOffset == c0.currentOffset + n && n <= toRead
    ensures outcome.Going? ==> Following(f, decode, kernel.fs, past, start, c, emitted)
    ensures Ended(f, decode, kernel.fs, Last(past, start, c), emitted)
    ensures outcome.Going? && n == 0 ==> !HasMore(kernel.fs, c.fd, c.currentOffset)
    ensures EndsFor(outcome, kernel, old(kernel.tick), |emitted|, emit)
  {
    c, emitted, n, outcome := c0, emitted0, 0, Failed;
    var t := Call(f, decode, kernel, past, start, c, emitted, o);
    if t.fault {
      FollowingEnds(f, decode, kernel.fs, past, start, c, c, emitted, emitted);
      return;
    }
    var chunkSize := if toRead > MAX_BUFF_SIZE then MAX_BUFF_SIZE else toRead;
    var ok;
    c, emitted, n, ok := ReadChunk(f, decode, kernel.fs, c, chunkSize, emitted, emit, past, start);
    outcome := if ok then Going else Stopped;
  }

  /** From the current offset a file has been read up to byte `end`: to `size`, or to its end if it
      has not that many bytes. */
  predicate ReadUpTo(fs: FileSystem, inode: nat, offset: nat, size: nat, end: nat) {
    && offset <= end <= size && (offset < end ==> HasBytes(fs, inode, end))
    && (end == size || !HasMore(fs, inode, end))
  }

  /** Reads the bytes between the current offset and `size` in chunks, parsing each. */
  method ReadAppended<R>(f: Framer, decode: Bytes -> Option<R>, kernel: Kernel, c0: Cursor, size: nat,
                         emitted0: seq<R>, emit: nat -> bool, ghost past: seq<Stretch>, ghost start: nat,
                         ghost o: Origin)
      returns (c: Cursor, emitted: seq<R>, outcome: Outcome)
    requires kernel.fs.Valid() && kernel.Since(o) && c0.currentOffset <= size
    requires Following(f, decode, kernel.fs, past, start, c0, emitted0)
    modifies kernel
    ensures kernel.fs.Valid() && kernel.Since(o)
    ensures c.fd == c0.fd && c.currentInode == c0.currentInode
    ensures outcome.Going? ==> Following(f, decode, kernel.fs, past, start, c, emitted)
    ensures Ended(f, decode, kernel.fs, Last(past, start, c), emitted)
    ensures outcome.Going? ==> ReadUpTo(kernel.fs, c.fd, c0.currentOffset, size, c.currentOffset)
    ensures old(kernel.tick) <= kernel.tick && EndsFor(outcome, kernel, old(kernel.tick), |emitted|, emit)
  {
    c, emitted, outcome := c0, emitted0, Going;
    var toRead := size - c.currentOffset;
    while toRead > 0
      invariant 0 <= toRead == size - c.currentOffset && c0.currentOffset <= c.currentOffset
      invariant kernel.fs.Valid() && kernel.Since(o)
      invariant c.fd == c0.fd && c.currentInode == c0.currentInode && outcome.Going?
      invariant Following(f, decode, kernel.fs, past, start, c, emitted)
      invariant old(kernel.tick) <= kernel.tick
      decreases toRead
    {
      var n;
      c, emitted, n, outcome := ReadNext(f, decode, kernel, c, toRead, emitted, emit, past, start, o);
      if !outcome.Going? {
        return;
      }
      if n == 0 {
        break;
      }
      toRead := toRead - n;
    }
    FollowingEnds(f, decode, kernel.fs, past, start, c, c, emitted, emitted);
  }

  /** Opening a file at the start of a new stretch adds no record. */
  lemma NewStretch<R>(f: Framer, decode: Bytes -> Option<R>, fs: FileSystem, past: seq<Stretch>,
                      inode: nat, at: nat, believed: nat, emitted: seq<R>)
    requires f.Lawful() && AllStretchesFit(fs, past) && inode < |fs.files|
    requires emitted == StretchRecords(f, decode, fs, past)
    ensures Following(f, decode, fs, past, at, Cursor(inode, at, believed, []), emitted)
  {
    var s := Stretch(inode, at, at);
    f.NothingToParse();
    StretchSnoc(f, decode, fs, past, s);
    assert Covered(fs, s) == [];
    assert StretchRecords(f, decode, fs, past) + [] == StretchRecords(f, decode, fs, past);
  }

  lemma FirstStretch<R>(f: Framer, decode: Bytes -> Option<R>, fs: FileSystem, inode: nat, at: nat, believed: nat)
    requires f.Lawful() && inode < |fs.files|
    ensures Following(f, decode, fs, [], at, Cursor(inode, at, believed, []), [])
  {
    NewStretch(f, decode, fs, [], inode, at, believed, []);
  }

  /** The openings are in order: the first begins where following was told to start, every other
      at byte 0, and no file is opened after a newer one. */
  ghost predicate Openings(stretches: seq<Stretch>, at: nat) {
    && (forall i :: 0 <= i < |stretches| ==> stretches[i].start == if i == 0 then at else 0)
    && (forall i, j :: 0 <= i < j < |stretches| ==> stretches[i].inode <= stretches[j].inode)
  }

  lemma OneMoreOpening(stretches: seq<Stretch>, at: nat, inode: nat)
    requires stretches != [] && Openings(stretches, at) && stretches[|stretches| - 1].inode <= inode
    ensures Openings(stretches + [Stretch(inode, 0, 0)], at)
  {
  }

  /** The log is opened anew. */
  lemma ReopenedFollows<R>(f: Framer, decode: Bytes -> Option<R>, fs: FileSystem, past: seq<Stretch>, start: nat,
                           c: Cursor, emitted: seq<R>, at: nat, inode: nat, believed: nat)
    requires Following(f, decode, fs, past, start, c, emitted) && Openings(Last(past, start, c), at)
    requires c.fd <= inode < |fs.files|
    ensures Following(f, decode, fs, Last(past, start, c), 0, Cursor(inode, 0, believed, []), emitted)
    ensures Openings(Last(Last(past, start, c), 0, Cursor(inode, 0, believed, [])), at)
  {
    FollowingEnds(f, decode, fs, past, start, c, c, emitted, emitted);
    NewStretch(f, decode, fs, Last(past, start, c), inode, 0, believed, emitted);
    OneMoreOpening(Last(past, start, c), at, inode);
  }

  lemma SameOpenings(past: seq<Stretch>, start: nat, c: Cursor, d: Cursor, at: nat)
    requires Openings(Last(past, start, c), at) && c.fd == d.fd
    ensures Openings(Last(past, start, d), at)
  {
    var a, b := Last(past, start, c), Last(past, start, d);
    forall i | 0 <= i < |b|
      ensures b[i].start == a[i].start && b[i].inode == a[i].inode
    {
    }
  }

  /** The file that the path names when it names one. */
  function Newest(fs: FileSystem): nat {
    if fs.files == [] then 0 else |fs.files| - 1
  }

  /** Closes the file and opens the log again, from its first byte. */
  method Reopen<R>(f: Framer, decode: Bytes -> Option<R>, kernel: Kernel, c0: Cursor, inode: nat, emitted: seq<R>,
                   ghost past0: seq<Stretch>, ghost start0: nat, ghost at: nat, ghost o: Origin)
      returns (c: Cursor, ok: bool, ghost past: seq<Stretch>, ghost start: nat)
    requires kernel.fs.Valid() && kernel.Since(o) && inode < |kernel.fs.files|
    requires Following(f, decode, kernel.fs, past0, start0, c0, emitted)
    requires Openings(Last(past0, start0, c0), at)
    modifies kernel
    ensures kernel.fs.Valid() && kernel.Since(o)
    ensures Following(f, decode, kernel.fs, past, start, c, emitted) && Openings(Last(past, start, c), at)
    ensures ok ==> c == Cursor(Newest(kernel.fs), 0, inode, []) && past == Last(past0, start0, c0) && start == 0
    ensures kernel.tick == old(kernel.tick) + 1 && (ok <==> !CallFailed(kernel, old(kernel.tick)))
  {
    c, past, start := c0, past0, start0;
    var t := Call(f, decode, kernel, past, start, c, emitted, o);
    EvolveKeeps(kernel.schedule, o, old(kernel.tick), kernel.tick, inode);
    ok := !t.fault && kernel.fs.named;
    if ok {
      var fd := |kernel.fs.files| - 1;
      assert StretchFits(kernel.fs, Last(past, start, c)[|past|]);
      ReopenedFollows(f, decode, kernel.fs, past, start, c, emitted, at, fd, inode);
      past, start := Last(past, start, c), 0;
      c := Cursor(fd, 0, inode, []);
    }
  }

  /** Of what a poll has open it goes on reading the last, up to the size that was seen. */
  ghost predicate ReadOn(fs: FileSystem, files: seq<Stretch>, size: nat, now: seq<Stretch>) {
    && |now| == |files| > 0
    && var n := |now| - 1;
       && now[..n] == files[..n] && now[n] == files[n].(end := now[n].end)
       && ReadUpTo(fs, now[n].inode, files[n].end, size, now[n].end)
  }

  /** Seeks to the current offset and reads up to the size that stat reported. */
  method SeekAndRead<R>(f: Framer, decode: Bytes -> Option<R>, kernel: Kernel, c0: Cursor, size: nat,
                        emitted0: seq<R>, emit: nat -> bool, ghost past: seq<Stretch>, ghost start: nat, ghost at: nat,
                        ghost o: Origin)
      returns (c: Cursor, emitted: seq<R>, outcome: Outcome)
    requires kernel.fs.Valid() && kernel.Since(o) && c0.currentOffset <= size
    requires Following(f, decode, kernel.fs, past, start, c0, emitted0)
    requires Openings(Last(past, start, c0), at)
    modifies kernel
    ensures kernel.fs.Valid() && kernel.Since(o)
    ensures c.fd == c0.fd && c.currentInode == c0.currentInode
    ensures outcome.Going? ==> Following(f, decode, kernel.fs, past, start, c, emitted)
    ensures Ended(f, decode, kernel.fs, Last(past, start, c), emitted)
    ensures Openings(Last(past, start, c), at)
    ensures outcome.Going? ==> ReadOn(kernel.fs, Last(past, start, c0), size, Last(past, start, c))
    ensures old(kernel.tick) <= kernel.tick && EndsFor(outcome, kernel, old(kernel.tick), |emitted|, emit)
  {
    c, emitted, outcome := c0, emitted0, Failed;
    var t := Call(f, decode, kernel, past, start, c, emitted, o);
    FollowingEnds(f, decode, kernel.fs, past, start, c, c, emitted, emitted);
    if !t.fault {
      c, emitted, outcome := ReadAppended(f, decode, kernel, c, size, emitted, emit, past, start, o);
      SameOpenings(past, start, c0, c, at);
    }
  }

  /** Another file was seen than the one believed to be open, or a shorter one. */
  predicate Rotated(a: Spot, seen: Seen)
    requires a.stretches != []
  {
    seen.inode != a.believed || seen.size < a.Open().end
  }

  /** What is open when a poll that began in turn k goes on to read: if another file was seen, the
      one that the path names in the turn after. */
  function Reopened(schedule: nat -> Turn, o: Origin, k: nat, a: Spot, seen: Seen): seq<Stretch>
    requires o.tick <= k && a.stretches != []
  {
    if Rotated(a, seen) then a.stretches + [Stretch(Newest(Evolve(schedule, o, k + 2)), 0, 0)] else a.stretches
  }

  /** Opens the log anew if stat, in turn k, saw another file, or a shorter one. */
  method Refresh<R>(f: Framer, decode: Bytes -> Option<R>, kernel: Kernel, c0: Cursor, seen: Seen, emitted: seq<R>,
                    ghost past0: seq<Stretch>, ghost start0: nat, ghost at: nat, ghost o: Origin, ghost k: nat)
      returns (c: Cursor, ok: bool, ghost past: seq<Stretch>, ghost start: nat)
    requires kernel.fs.Valid() && kernel.Since(o) && o.tick <= k && kernel.tick == k + 1
    requires Following(f, decode, kernel.fs, past0, start0, c0, emitted)
    requires Openings(Last(past0, start0, c0), at)
    requires HasBytes(kernel.fs, seen.inode, seen.size)
    modifies kernel
    ensures kernel.fs.Valid() && kernel.Since(o)
    ensures Following(f, decode, kernel.fs, past, start, c, emitted) && Openings(Last(past, start, c), at)
    ensures ok ==> c.currentInode == seen.inode && c.currentOffset <= seen.size
    ensures ok ==> Last(past, start, c) == Reopened(kernel.schedule, o, k, SpotOf(past0, start0, c0), seen)
    ensures ok ==> kernel.tick == k + if Rotated(SpotOf(past0, start0, c0), seen) then 2 else 1
    ensures old(kernel.tick) <= kernel.tick && (!ok ==> CallFailed(kernel, old(kernel.tick)))
  {
    c, ok, past, start := c0, true, past0, start0;
    if seen.inode != c.currentInode || seen.size < c.currentOffset {
      c, ok, past, start := Reopen(f, decode, kernel, c, seen.inode, emitted, past, start, at, o);
    }
  }

  /** What a poll that began in turn k and saw the log does: it opens the file anew exactly if
      another one was seen, or a shorter one, and reads the open file to the size that was seen. */
  ghost predicate Polled(schedule: nat -> Turn, o: Origin, k: nat, next: nat, a: Spot, seen: Seen, b: Spot)
    requires o.tick <= k && a.stretches != []
  {
    var files, now := Reopened(schedule, o, k, a, seen), if Rotated(a, seen) then k + 2 else k + 1;
    && now <= next && (seen.size == files[|files| - 1].end ==> next == now)
    && b.believed == seen.inode && ReadOn(Evolve(schedule, o, next), files, seen.size, b.stretches)
  }

  /** A poll that saw nothing new in the file that is open. */
  lemma NothingAppended(schedule: nat -> Turn, o: Origin, k: nat, next: nat, a: Spot, seen: Seen, b: Spot)
    requires o.tick <= k && a.stretches != [] && b.believed == seen.inode
    requires next == k + if Rotated(a, seen) then 2 else 1
    requires b.stretches == Reopened(schedule, o, k, a, seen) && b.Open().end == seen.size
    ensures Polled(schedule, o, k, next, a, seen, b)
  {
  }

  /** After stat: reopens if the log was rotated or is shorter than what was read, then reads what
      was appended. */
  method CatchUp<R>(f: Framer, decode: Bytes -> Option<R>, kernel: Kernel, c0: Cursor, seen: Seen,
                    emitted0: seq<R>, emit: nat -> bool, ghost past0: seq<Stretch>, ghost start0: nat, ghost at: nat,
                    ghost o: Origin, ghost k: nat)
      returns (c: Cursor, emitted: seq<R>, outcome: Outcome, ghost past: seq<Stretch>, ghost start: nat)
    requires kernel.fs.Valid() && kernel.Since(o) && o.tick <= k && kernel.tick == k + 1
    requires Following(f, decode, kernel.fs, past0, start0, c0, emitted0)
    requires Openings(Last(past0, start0, c0), at)
    requires HasBytes(kernel.fs, seen.inode, seen.size)
    modifies kernel
    ensures kernel.fs.Valid() && kernel.Since(o)
    ensures outcome.Going? ==> Following(f, decode, kernel.fs, past, start, c, emitted)
    ensures Ended(f, decode, kernel.fs, Last(past, start, c), emitted)
    ensures Openings(Last(past, start, c), at)
    ensures outcome.Going? ==>
      Polled(kernel.schedule, o, k, kernel.tick, SpotOf(past0, start0, c0), seen, SpotOf(past, start, c))
    ensures old(kernel.tick) <= kernel.tick && EndsFor(outcome, kernel, old(kernel.tick), |emitted|, emit)
  {
    var ok;
    emitted, outcome := emitted0, Failed;
    c, ok, past, start := Refresh(f, decode, kernel, c0, seen, emitted, past0, start0, at, o, k);
    FollowingEnds(f, decode, kernel.fs, past, start, c, c, emitted, emitted);
    if ok {
      outcome := Going;
      if seen.size > c.currentOffset {
        c, emitted, outcome := SeekAndRead(f, decode, kernel, c, seen.size, emitted, emit, past, start, at, o);
      } else {
        NothingAppended(kernel.schedule, o, k, kernel.tick, SpotOf(past0, start0, c0), seen, SpotOf(past, start, c));
      }
    }
  }

  /** What a poll that began in turn k does; without an answer nothing, and it takes no other turn. */
  ghost predicate PollLeads(schedule: nat -> Turn, o: Origin, k: nat, next: nat, a: Spot, b: Spot) {
    && o.tick <= k < next && a.stretches != []
    && match StatAnswer(schedule, o, k)
       case None => next == k + 1 && b == a
       case Some(seen) => Polled(schedule, o, k, next, a, seen, b)
  }

  /** Asks which file the path names, and how large it is. */
  method Stat<R>(f: Framer, decode: Bytes -> Option<R>, kernel: Kernel, ghost past: seq<Stretch>, ghost start: nat,
                 c: Cursor, emitted: seq<R>, ghost o: Origin) returns (seen: Option<Seen>)
    requires kernel.fs.Valid() && kernel.Since(o) && Following(f, decode, kernel.fs, past, start, c, emitted)
    modifies kernel
    ensures kernel.fs.Valid() && kernel.Since(o) && Following(f, decode, kernel.fs, past, start, c, emitted)
    ensures kernel.tick == old(kernel.tick) + 1
    ensures seen == StatAnswer(kernel.schedule, o, old(kernel.tick))
    ensures seen.Some? ==> HasBytes(kernel.fs, seen.value.inode, seen.value.size)
  {
    var t := Call(f, decode, kernel, past, start, c, emitted, o);
    if t.fault || !kernel.fs.named {
      return None;
    }
    var inode := |kernel.fs.files| - 1;
    return Some(Seen(inode, |kernel.fs.files[inode]|));
  }

  /** One round of the polling loop; nothing happens while the log cannot be found. */
  method Poll<R>(f: Framer, decode: Bytes -> Option<R>, kernel: Kernel, c0: Cursor, emitted0: seq<R>,
                 emit: nat -> bool, ghost past0: seq<Stretch>, ghost start0: nat, ghost at: nat, ghost o: Origin)
      returns (c: Cursor, emitted: seq<R>, outcome: Outcome, ghost past: seq<Stretch>, ghost start: nat)
    requires kernel.fs.Valid() && kernel.Since(o)
    requires Following(f, decode, kernel.fs, past0, start0, c0, emitted0)
    requires Openings(Last(past0, start0, c0), at)
    modifies kernel
    ensures kernel.fs.Valid() && kernel.Since(o)
    ensures outcome.Going? ==> Following(f, decode, kernel.fs, past, start, c, emitted)
    ensures Ended(f, decode, kernel.fs, Last(past, start, c), emitted)
    ensures Openings(Last(past, start, c), at)
    ensures StatAnswer(kernel.schedule, o, old(kernel.tick)).None? ==> outcome.Going? && emitted == emitted0
    ensures outcome.Going? ==>
      PollLeads(kernel.schedule, o, old(kernel.tick), kernel.tick, SpotOf(past0, start0, c0), SpotOf(past, start, c))
    ensures old(kernel.tick) < kernel.tick && EndsFor(outcome, kernel, old(kernel.tick), |emitted|, emit)
  {
    c, emitted, outcome, past, start := c0, emitted0, Going, past0, start0;
    var seen := Stat(f, decode, kernel, past, start, c, emitted, o);
    FollowingEnds(f, decode, kernel.fs, past, start, c, c, emitted, emitted);
    if seen.Some? {
      c, emitted, outcome, past, start :=
        CatchUp(f, decode, kernel, c, seen.value, emitted, emit, past, start, at, o, old(kernel.tick));
    }
  }

  /** Seeks to where following starts, unless that is the first byte. */
  method SeekTo<R>(f: Framer, decode: Bytes -> Option<R>, kernel: Kernel, at: nat, c: Cursor, ghost o: Origin)
      returns (ok: bool)
    requires kernel.fs.Valid() && kernel.Since(o) && Following(f, decode, kernel.fs, [], at, c, [])
    modifies kernel
    ensures kernel.fs.Valid() && kernel.Since(o) && Following(f, decode, kernel.fs, [], at, c, [])
    ensures kernel.tick == old(kernel.tick) + if at > 0 then 1 else 0
    ensures !ok ==> CallFailed(kernel, old(kernel.tick))
  {
    ok := true;
    if at > 0 {
      var t := Call(f, decode, kernel, [], at, c, [], o);
      ok := !t.fault;
    }
  }

  /** Opens the log and seeks to where following starts. */
  method OpenAt<R>(f: Framer, decode: Bytes -> Option<R>, kernel: Kernel, startOffset: nat, startInode: nat,
                   ghost o: Origin)
      returns (ok: bool, c: Cursor, ghost none: seq<R>)
    requires f.Lawful() && kernel.fs.Valid() && kernel.Since(o)
    modifies kernel
    ensures kernel.fs.Valid() && kernel.Since(o) && none == []
    ensures ok ==> Following(f, decode, kernel.fs, [], startOffset, c, none)
    ensures c.currentInode == startInode && c.currentOffset == startOffset
    ensures ok ==> c.fd == Newest(Evolve(kernel.schedule, o, old(kernel.tick) + 1))
    ensures ok ==> kernel.tick == old(kernel.tick) + if startOffset > 0 then 2 else 1
    ensures old(kernel.tick) < kernel.tick && (!ok ==> CallFailed(kernel, old(kernel.tick)))
  {
    none := [];
    var t := kernel.Enter();
    assert kernel.Since(o);
    c := Cursor(Newest(kernel.fs), startOffset, startInode, []);
    ok := !t.fault && kernel.fs.named;
    if ok {
      FirstStretch(f, decode, kernel.fs, c.fd, startOffset, startInode);
      ok := SeekTo(f, decode, kernel, startOffset, c, o);
    }
  }

  // ---------------------------------------------------------------- whole runs

  /** Poll i of a run. */
  ghost predicate PollAt(schedule: nat -> Turn, o: Origin, ticks: seq<nat>, spots: seq<Spot>, i: nat)
    requires i + 1 < |ticks| == |spots|
  {
    PollLeads(schedule, o, ticks[i], ticks[i + 1], spots[i], spots[i + 1])
  }

  /** A run of the polling loop: poll i begins in turn ticks[i], where spots[i] says how following
      stands, and leads to where the next one begins. */
  ghost predicate IsPolling(schedule: nat -> Turn, o: Origin, ticks: seq<nat>, spots: seq<Spot>) {
    && |ticks| == |spots| > 0
    && forall i: nat :: i + 1 < |ticks| ==> PollAt(schedule, o, ticks, spots, i)
  }

  lemma PollingSnoc(schedule: nat -> Turn, o: Origin, ticks: seq<nat>, spots: seq<Spot>, next: nat, b: Spot)
    requires IsPolling(schedule, o, ticks, spots)
    requires PollLeads(schedule, o, ticks[|ticks| - 1], next, spots[|spots| - 1], b)
    ensures IsPolling(schedule, o, ticks + [next], spots + [b])
  {
    var ts, ss := ticks + [next], spots + [b];
    forall i: nat | i + 1 < |ts|
      ensures PollAt(schedule, o, ts, ss, i)
    {
      assert i + 1 < |ticks| ==> PollAt(schedule, o, ticks, spots, i);
    }
  }

  /** A run of so many polls up to turn `next`, after the log was opened in turn `opening`. */
  ghost predicate Followed(schedule: nat -> Turn, o: Origin, opening: nat, next: nat, ticks: seq<nat>,
                           spots: seq<Spot>, polls: nat, at: nat, inode: nat)
  {
    && o.tick <= opening && IsPolling(schedule, o, ticks, spots)
    && |ticks| == polls + 1 && ticks[polls] == next
    && ticks[0] == opening + (if at > 0 then 2 else 1)
    && spots[0] == Spot([Stretch(Newest(Evolve(schedule, o, opening + 1)), at, at)], inode)
  }

  lemma FollowedOn(schedule: nat -> Turn, o: Origin, opening: nat, k: nat, next: nat, ticks: seq<nat>,
                   spots: seq<Spot>, at: nat, inode: nat, b: Spot)
    requires ticks != [] && Followed(schedule, o, opening, k, ticks, spots, |ticks| - 1, at, inode)
    requires PollLeads(schedule, o, k, next, spots[|spots| - 1], b)
    ensures Followed(schedule, o, opening, next, ticks + [next], spots + [b], |ticks|, at, inode)
  {
    PollingSnoc(schedule, o, ticks, spots, next, b);
  }

  /** Between two polls of followFrom. */
  ghost predicate Between<R>(f: Framer, decode: Bytes -> Option<R>, kernel: Kernel, o: Origin, opening: nat,
                             ticks: seq<nat>, spots: seq<Spot>, at: nat, inode: nat,
                             c: Cursor, past: seq<Stretch>, start: nat, emitted: seq<R>)
    reads kernel
  {
    && kernel.fs.Valid() && kernel.Since(o)
    && Following(f, decode, kernel.fs, past, start, c, emitted)
    && Openings(Last(past, start, c), at)
    && ticks != [] && Followed(kernel.schedule, o, opening, kernel.tick, ticks, spots, |ticks| - 1, at, inode)
    && spots[|spots| - 1] == SpotOf(past, start, c)
  }

  /** One round of the polling loop, with the history of the run. */
  method NextPoll<R>(f: Framer, decode: Bytes -> Option<R>, kernel: Kernel, c0: Cursor, emitted0: seq<R>,
                     emit: nat -> bool, ghost past0: seq<Stretch>, ghost start0: nat, ghost at: nat, ghost inode: nat,
                     ghost o: Origin, ghost opening: nat, ghost ticks0: seq<nat>, ghost spots0: seq<Spot>)
      returns (c: Cursor, emitted: seq<R>, outcome: Outcome, ghost past: seq<Stretch>, ghost start: nat,
               ghost ticks: seq<nat>, ghost spots: seq<Spot>)
    requires ticks0 != []
    requires Between(f, decode, kernel, o, opening, ticks0, spots0, at, inode, c0, past0, start0, emitted0)
    modifies kernel
    ensures kernel.fs.Valid() && kernel.Since(o) && old(kernel.tick) < kernel.tick
    ensures |ticks| == |ticks0| + 1
    ensures outcome.Going? ==>
      Between(f, decode, kernel, o, opening, ticks, spots, at, inode, c, past, start, emitted)
    ensures Ended(f, decode, kernel.fs, Last(past, start, c), emitted) && Openings(Last(past, start, c), at)
    ensures EndsFor(outcome, kernel, old(kernel.tick), |emitted|, emit)
  {
    c, emitted, outcome, past, start := Poll(f, decode, kernel, c0, emitted0, emit, past0, start0, at, o);
    ticks, spots := ticks0 + [kernel.tick], spots0 + [SpotOf(past, start, c)];
    if outcome.Going? {
      FollowedOn(kernel.schedule, o, opening, old(kernel.tick), kernel.tick, ticks0, spots0, at, inode,
                 SpotOf(past, start, c));
    }
  }

  lemma FirstOpening(c: Cursor, at: nat)
    ensures Openings(Last([], at, c), at)
  {
  }

  /** The polling loop of followFrom. */
  method PollLoop<R>(f: Framer, decode: Bytes -> Option<R>, kernel: Kernel, c0: Cursor, polls: nat, emit: nat -> bool,
                     ghost none: seq<R>, ghost at: nat, ghost inode: nat, ghost o: Origin, ghost opening: nat)
      returns (c: Cursor, emitted: seq<R>, outcome: Outcome, ghost past: seq<Stretch>, ghost start: nat,
               ghost ticks: seq<nat>, ghost spots: seq<Spot>)
    requires none == []
    requires Between(f, decode, kernel, o, opening, [kernel.tick], [SpotOf([], at, c0)], at, inode, c0, [], at, none)
    modifies kernel
    ensures kernel.fs.Valid() && kernel.Since(o) && old(kernel.tick) <= kernel.tick
    ensures outcome.Going? ==> |ticks| == polls + 1
    ensures outcome.Going? ==>
      Between(f, decode, kernel, o, opening, ticks, spots, at, inode, c, past, start, emitted)
    ensures Ended(f, decode, kernel.fs, Last(past, start, c), emitted) && Openings(Last(past, start, c), at)
    ensures EndsFor(outcome, kernel, old(kernel.tick), |emitted|, emit)
  {
    c, emitted, outcome, past, start, ticks, spots := c0, [], Going, [], at, [kernel.tick], [SpotOf([], at, c0)];
    for i := 0 to polls
      invariant Between(f, decode, kernel, o, opening, ticks, spots, at, inode, c, past, start, emitted)
      invariant outcome.Going? && |ticks| == i + 1 && old(kernel.tick) <= kernel.tick
    {
      c, emitted, outcome, past, start, ticks, spots :=
        NextPoll(f, decode, kernel, c, emitted, emit, past, start, at, inode, o, opening, ticks, spots);
      if !outcome.Going? {
        return;
      }
    }
    FollowingEnds(f, decode, kernel.fs, past, start, c, c, emitted, emitted);
  }

  /** followFrom, for any number of polls, whatever the log does meanwhile: what is emitted is the
      records of the bytes read since each opening, in order, each opening parsed on its own; and
      which files were opened, and how far each has been read, is what the polls make of the
      answers that the schedule gives them. */
  method FollowFrom<R>(f: Framer, decode: Bytes -> Option<R>, kernel: Kernel, startOffset: nat, startInode: nat,
                       polls: nat, emit: nat -> bool, ghost o: Origin)
      returns (emitted: seq<R>, outcome: Outcome, ghost stretches: seq<Stretch>,
               ghost ticks: seq<nat>, ghost spots: seq<Spot>)
    requires f.Lawful() && kernel.fs.Valid() && kernel.Since(o)
    modifies kernel
    ensures kernel.fs.Valid() && kernel.Since(o)
    ensures outcome.Going? ==> emitted == StretchRecords(f, decode, kernel.fs, stretches)
    ensures Ended(f, decode, kernel.fs, stretches, emitted)
    ensures Openings(stretches, startOffset)
    ensures outcome.Going? ==>
      && Followed(kernel.schedule, o, old(kernel.tick), kernel.tick, ticks, spots, polls, startOffset, startInode)
      && stretches == spots[polls].stretches
    ensures old(kernel.tick) < kernel.tick && EndsFor(outcome, kernel, old(kernel.tick), |emitted|, emit)
  {
    stretches, ticks, spots := [], [], [];
    var ok, c, none := OpenAt(f, decode, kernel, startOffset, startInode, o);
    if !ok {
      return [], Failed, [], [], [];
    }
    FirstOpening(c, startOffset);
    ghost var past, start;
    c, emitted, outcome, past, start, ticks, spots :=
      PollLoop(f, decode, kernel, c, polls, emit, none, startOffset, startInode, o, old(kernel.tick));
    stretches := Last(past, start, c);
    if outcome.Going? {
      FollowingEnds(f, decode, kernel.fs, past, start, c, c, emitted, emitted);
    }
  }

  // ---------------------------------------------------------------- tail, then follow

  /** validateTailOptions: the number of records to show, or None if the options are refused. */
  function TailCount(n: int, follow: bool, interval: int): (r: Option<nat>)
    ensures r.None? <==> n < 0 || (follow && interval < 0)
    ensures r.Some? ==> 0 < r.value <= 100000
    ensures r.Some? && 0 < n <= 100000 ==> r.value == n
    ensures r.Some? && n > 100000 ==> r.value == 100000
    ensures r.Some? && n == 0 ==> r.value == 10
  {
    if n < 0 || (follow && interval < 0) then None
    else if n == 0 then Some(Tail.DEFAULT_TAIL_N)
    else if n > Tail.MAX_TAIL_RECORDS then Some(Tail.MAX_TAIL_RECORDS)
    else Some(n)
  }

  /** What a run of PblogTail has seen of the log. */
  datatype Sight = Sight(inode: nat, content: Bytes, ticks: seq<nat>, spots: seq<Spot>) {
    /** What was read while following. */
    function Stretches(): seq<Stretch> {
      if spots == [] then [] else spots[|spots| - 1].stretches
    }
  }

  /** Which file was shown: the one the path named in the first turn, with what it held in the
      second, when its size was asked for. */
  ghost predicate Showed(schedule: nat -> Turn, o: Origin, sight: Sight) {
    var first, sized := Evolve(schedule, o, o.tick + 1), Evolve(schedule, o, o.tick + 2);
    && sight.inode + 1 == |first.files|
    && sight.inode < |sized.files| && sight.content == sized.files[sight.inode]
  }

  /** What the polls have read, from the end of what was shown. */
  ghost predicate Followup(schedule: nat -> Turn, o: Origin, next: nat, sight: Sight, polls: nat)
    requires o.tick <= next
  {
    && AllStretchesFit(Evolve(schedule, o, next), sight.Stretches())
    && Followed(schedule, o, o.tick + 2, next, sight.ticks, sight.spots, polls, |sight.content|, sight.inode)
  }

  /** What PblogTail has done by turn `next`: it has shown the last `count` records of the log and,
      if wanted, what the polls read from there on. */
  ghost predicate TailRun<R>(f: Framer, decode: Bytes -> Option<R>, schedule: nat -> Turn, o: Origin, next: nat,
                             sight: Sight, count: nat, follow: bool, polls: nat, emitted: seq<R>) {
    var fs := if o.tick <= next then Evolve(schedule, o, next) else o.fs;
    && o.tick + 2 <= next && Showed(schedule, o, sight)
    && emitted == Tail.TailResult(f, decode, sight.content, count) + StretchRecords(f, decode, fs, sight.Stretches())
    && if follow then Followup(schedule, o, next, sight, polls) else next == o.tick + 2 && sight.spots == []
  }

  /** Opens the log, asks for its size and shows the last n records of what it holds then. */
  method ShowTail<R>(f: Framer, decode: Bytes -> Option<R>, kernel: Kernel, n: nat, emit: nat -> bool, ghost o: Origin)
      returns (emitted: seq<R>, outcome: Outcome, inode: nat, endOffset: nat, ghost content: Bytes)
    requires f.Lawful() && kernel.fs.Valid() && n > 0
    requires o == Origin(kernel.fs, kernel.tick)
    modifies kernel
    ensures kernel.fs.Valid() && kernel.Since(o)
    ensures outcome.Going? ==> kernel.tick == o.tick + 2 && endOffset == |content|
    ensures outcome.Going? ==> Showed(kernel.schedule, o, Sight(inode, content, [], []))
    ensures outcome.Going? ==> emitted == Tail.TailResult(f, decode, content, n)
    ensures old(kernel.tick) < kernel.tick && EndsFor(outcome, kernel, old(kernel.tick), |emitted|, emit)
  {
    emitted, outcome, inode, endOffset, content := [], Failed, 0, 0, [];
    var t := kernel.Enter();
    assert kernel.Since(o);
    if t.fault || !kernel.fs.named {
      return;
    }
    inode := |kernel.fs.files| - 1;
    ghost var before := kernel.fs;
    t := kernel.Enter();
    ChangesGrow(before, t.changes);
    assert kernel.Since(o);
    if t.fault {
      return;
    }
    content := kernel.fs.files[inode];
    var tail;
    tail, endOffset := Tail.TailLastN(f, decode, kernel.fs.files[inode], n);
    var ok;
    emitted, ok := EmitAll([], tail.value, emit);
    outcome := if ok then Going else Stopped;
  }

  /** followFrom as PblogTail calls it: emissions are counted on from those of the tail. */
  method ThenFollow<R>(f: Framer, decode: Bytes -> Option<R>, kernel: Kernel, endOffset: nat, inode: nat,
                       polls: nat, emit: nat -> bool, shown: seq<R>, ghost content: Bytes, ghost o: Origin)
      returns (emitted: seq<R>, outcome: Outcome, ghost sight: Sight)
    requires f.Lawful() && kernel.fs.Valid() && kernel.Since(o)
    requires kernel.tick == o.tick + 2 && endOffset == |content|
    modifies kernel
    ensures kernel.fs.Valid() && kernel.Since(o) && old(kernel.tick) < kernel.tick
    ensures sight == Sight(inode, content, sight.ticks, sight.spots)
    ensures outcome.Going? ==>
      emitted == shown + StretchRecords(f, decode, Evolve(kernel.schedule, o, kernel.tick), sight.Stretches())
    ensures outcome.Going? ==> Followup(kernel.schedule, o, kernel.tick, sight, polls)
    ensures EndsFor(outcome, kernel, old(kernel.tick), |emitted|, emit)
  {
    var n := |shown|;
    var later;
    ghost var stretches, ticks, spots;
    later, outcome, stretches, ticks, spots :=
      FollowFrom(f, decode, kernel, endOffset, inode, polls, (k: nat) => emit(k + n), o);
    emitted := shown + later;
    sight := Sight(inode, content, ticks, spots);
    assert kernel.fs == Evolve(kernel.schedule, o, kernel.tick);
    assert outcome.Going? ==> sight.Stretches() == stretches;
  }

  lemma RunWithoutFollowup<R>(f: Framer, decode: Bytes -> Option<R>, schedule: nat -> Turn, o: Origin,
                              sight: Sight, count: nat, polls: nat, shown: seq<R>)
    requires Showed(schedule, o, sight) && shown == Tail.TailResult(f, decode, sight.content, count)
    requires sight.spots == []
    ensures TailRun(f, decode, schedule, o, o.tick + 2, sight, count, false, polls, shown)
  {
    assert shown + StretchRecords(f, decode, Evolve(schedule, o, o.tick + 2), []) == shown;
  }

  lemma RunWithFollowup<R>(f: Framer, decode: Bytes -> Option<R>, schedule: nat -> Turn, o: Origin, next: nat,
                           sight: Sight, count: nat, polls: nat, shown: seq<R>, emitted: seq<R>)
    requires Showed(schedule, o, sight) && shown == Tail.TailResult(f, decode, sight.content, count)
    requires o.tick + 2 <= next && Followup(schedule, o, next, sight, polls)
    requires emitted == shown + StretchRecords(f, decode, Evolve(schedule, o, next), sight.Stretches())
    ensures TailRun(f, decode, schedule, o, next, sight, count, true, polls, emitted)
  {
  }

  /** The two halves of PblogTail. */
  method TailAndFollow<R>(f: Framer, decode: Bytes -> Option<R>, kernel: Kernel, count: nat, follow: bool,
                          polls: nat, emit: nat -> bool, ghost o: Origin)
      returns (emitted: seq<R>, outcome: Outcome, ghost sight: Sight)
    requires f.Lawful() && kernel.fs.Valid() && count > 0
    requires o == Origin(kernel.fs, kernel.tick)
    modifies kernel
    ensures kernel.Since(o)
    ensures outcome.Going? ==>
      TailRun(f, decode, kernel.schedule, o, kernel.tick, sight, count, follow, polls, emitted)
    ensures EndsFor(outcome, kernel, old(kernel.tick), |emitted|, emit)
  {
    var fd, endOffset;
    ghost var content;
    emitted, outcome, fd, endOffset, content := ShowTail(f, decode, kernel, count, emit, o);
    sight := Sight(fd, content, [], []);
    if outcome.Going? {
      if follow {
        ghost var shown := emitted;
        emitted, outcome, sight := ThenFollow(f, decode, kernel, endOffset, fd, polls, emit, emitted, content, o);
        if outcome.Going? {
          RunWithFollowup(f, decode, kernel.schedule, o, kernel.tick, sight, count, polls, shown, emitted);
        }
      } else {
        RunWithoutFollowup(f, decode, kernel.schedule, o, sight, count, polls, emitted);
      }
    }
  }

  /** PblogTail: the last n records of the log as it was when its size was asked for, then, if
      wanted, what is read from there on. */
  method PblogTail<R>(f: Framer, decode: Bytes -> Option<R>, kernel: Kernel, n: int, follow: bool, interval: int,
                      polls: nat, emit: nat -> bool)
      returns (emitted: seq<R>, outcome: Outcome, ghost sight: Sight)
    requires f.Lawful() && kernel.fs.Valid()
    modifies kernel
    ensures kernel.Since(Origin(old(kernel.fs), old(kernel.tick)))
    ensures TailCount(n, follow, interval) == None ==>
      outcome == Failed && emitted == [] && kernel.tick == old(kernel.tick)
    ensures TailCount(n, follow, interval) != None ==>
      EndsFor(outcome, kernel, old(kernel.tick), |emitted|, emit)
    ensures outcome.Going? ==> TailCount(n, follow, interval).Some?
    ensures outcome.Going? ==>
      TailRun(f, decode, kernel.schedule, Origin(old(kernel.fs), old(kernel.tick)), kernel.tick, sight,
              TailCount(n, follow, interval).value, follow, polls, emitted)
  {
    emitted, outcome, sight := [], Failed, Sight(0, [], [], []);
    var count := TailCount(n, follow, interval);
    if count.Some? {
      emitted, outcome, sight :=
        TailAndFollow(f, decode, kernel, count.value, follow, polls, emit, Origin(kernel.fs, kernel.tick));
    }
  }

  lemma LastNOfLonger<T>(a: seq<T>, b: seq<T>, n: nat)
    ensures LastN(a + b, |LastN(a, n)| + |b|) == LastN(a, n) + b
  {
    var k := |LastN(a, n)|;
    assert (a + b)[|a + b| - (k + |b|)..] == a[|a| - k..] + b;
  }

  /** Tail then follow is seamless: if the log fits one window and is at a place where nothing is
      cut, then the records shown at first and those of everything appended afterwards are together
      the last records of the whole log, none missing and none twice. */
  lemma HandOffIsSeamless<R>(f: Framer, decode: Bytes -> Option<R>, c: Bytes, d: Bytes, n: nat)
    requires f.Lawful() && n > 0 && |c| <= Tail.INITIAL_CHUNK && f.SeamlessAt(c)
    ensures var k := |Records(f, decode, c)|;
      Tail.TailResult(f, decode, c, n) + Records(f, decode, d)
      == LastN(Records(f, decode, c + d), (if n < k then n else k) + |Records(f, decode, d)|)
    ensures |Records(f, decode, c + d)| == |Records(f, decode, c)| + |Records(f, decode, d)|
  {
    Tail.OneWindowTailIsTheTail(f, decode, c, n);
    FilterMapAppend(decode, f.Frames(c), f.Frames(d));
    assert f.Frames(c + d) == f.Frames(c) + f.Frames(d);
    LastNOfLonger(Records(f, decode, c), Records(f, decode, d), n);
  }

  lemma OneStretch<R>(f: Framer, decode: Bytes -> Option<R>, fs: FileSystem, s: Stretch)
    ensures StretchRecords(f, decode, fs, [s]) == Records(f, decode, Covered(fs, s))
  {
    StretchSnoc(f, decode, fs, [], s);
    assert [] + [s] == [s];
    assert StretchRecords(f, decode, fs, []) + Records(f, decode, Covered(fs, s)) == Records(f, decode, Covered(fs, s));
  }
}
