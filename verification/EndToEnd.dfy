/** From the log file to the table: what a daemon started with `-b` leaves in MySQL after an
    earlier daemon has been through part of the same log, well or badly. */
module EndToEnd {
  import opened Sequences
  import opened Framing
  import opened DetailTable
  import PbParse
  import WriterMachine
  import MysqlWriter
  import FileSystem
  import ReaderMachine
  import Rotation
  import Interleaving

  /** The rows of a log: its records that are requests and can be converted, in file order. */
  function LogRows<R>(f: Framer, decode: Bytes -> Option<R>, convert: R -> Option<Row>, log: Bytes): seq<Row> {
    FilterMap(convert, PbParse.Records(f, decode, log))
  }

  /** The rows of the frames that a reader has delivered. */
  function FrameRows<R>(decode: Bytes -> Option<R>, convert: R -> Option<Row>, frames: seq<Bytes>): seq<Row> {
    FilterMap(convert, FilterMap(decode, frames))
  }

  lemma PrefixRows<R>(decode: Bytes -> Option<R>, convert: R -> Option<Row>, a: seq<Bytes>, b: seq<Bytes>)
    requires a <= b
    ensures FrameRows(decode, convert, a) <= FrameRows(decode, convert, b)
  {
    assert b == a + b[|a|..];
    FilterMapAppend(decode, a, b[|a|..]);
    FilterMapAppend(convert, FilterMap(decode, a), FilterMap(decode, b[|a|..]));
  }

  /** A log that has grown yields the same rows as before and then some. */
  lemma RowsOfGrownLog<R>(f: Framer, decode: Bytes -> Option<R>, convert: R -> Option<Row>, log: Bytes, more: Bytes)
    requires f.Lawful()
    ensures LogRows(f, decode, convert, log) <= LogRows(f, decode, convert, log + more)
  {
    f.Append(log, more);
    PrefixRows(decode, convert, f.Frames(log), f.Frames(log + more));
  }

  /** Nothing reaches the table that was not accepted. */
  lemma {:induction false} AppliedWereFlushed(flushes: seq<WriterMachine.Flush>, r: Row)
    requires r in WriterMachine.AppliedRows(flushes)
    ensures r in Flatten(WriterMachine.Rows(flushes))
    decreases |flushes|
  {
    if flushes != [] {
      var n := |flushes| - 1;
      WriterMachine.FlushSnoc(flushes[..n], flushes[n]);
      assert flushes == flushes[..n] + [flushes[n]];
      if r in WriterMachine.AppliedRows(flushes[..n]) {
        AppliedWereFlushed(flushes[..n], r);
      }
    }
  }

  /** What a writer has made of the table after any run: the outcome of upserting some of the
      rows it accepted. */
  lemma TableAfterAnyRun(cfg: WriterMachine.Config, table: Table, events: seq<WriterMachine.Event>,
                         t: WriterMachine.State) returns (applied: seq<Row>)
    requires cfg.Valid() && WriterMachine.IsRun(WriterMachine.Init(cfg, table), events, t)
    requires AllFullKeys(t.accepted)
    ensures t.table == Apply(table, applied)
    ensures forall r :: r in applied ==> r in t.accepted
  {
    applied := WriterMachine.AppliedRows(t.flushes) + WriterMachine.Pending(t);
    MysqlWriter.TableHoldsAppliedBatches(cfg, table, events, t);
    MysqlWriter.RowsAreConserved(cfg, table, events, t);
    forall r | r in applied
      ensures r in t.accepted
    {
      if r in WriterMachine.AppliedRows(t.flushes) {
        AppliedWereFlushed(t.flushes, r);
      }
    }
  }

  /** A daemon that got everything through: every row of the log was accepted, in whatever order
      the batches' goroutines handed them over, and every batch was applied. */
  ghost predicate CleanPass(rows: seq<Row>, cfg: WriterMachine.Config, table: Table,
                            events: seq<WriterMachine.Event>, t: WriterMachine.State) {
    && cfg.Valid() && WriterMachine.IsRun(WriterMachine.Init(cfg, table), events, t)
    && multiset(t.accepted) == multiset(rows)
    && MysqlWriter.AllApplied(t.flushes) && t.batch == [] && t.queue == []
  }

  /** When a daemon gets everything through: the goroutines have handed over all batches of its
      records, in whatever order, Update has offered their rows as it got them, the queue has always
      had room, and every batch was applied. */
  lemma CleanPassOfFanOut<R>(batches: seq<seq<R>>, schedule: seq<nat>, convert: R -> Option<Row>,
                             cfg: WriterMachine.Config, table: Table,
                             events: seq<WriterMachine.Event>, t: WriterMachine.State)
    requires cfg.Valid() && WriterMachine.IsRun(WriterMachine.Init(cfg, table), events, t)
    requires Interleaving.Done(batches, schedule)
    requires MysqlWriter.Offered(events) == Interleaving.ArrivedRows(batches, schedule, convert)
    requires MysqlWriter.Refused(t) == 0
    requires MysqlWriter.AllApplied(t.flushes) && t.batch == [] && t.queue == []
    ensures CleanPass(FilterMap(convert, Flatten(batches)), cfg, table, events, t)
  {
    MysqlWriter.OfferedIsAccepted(WriterMachine.Init(cfg, table), events, t);
    assert [] + MysqlWriter.Offered(events) == MysqlWriter.Offered(events);
    Interleaving.EveryRowArrives(batches, schedule, convert);
  }

  /** A clean pass repairs any earlier run. Whatever an earlier writer made of some of the rows
      (dropped at a full queue, given up, applied without an acknowledgement, left behind by a
      panic or a crash in the middle), a clean pass over all of them leaves the table as if that
      pass had been the only one. Every row needs a full key; requests that share a key end up as
      one row, as they do without the earlier run. */
  lemma CleanPassRepairsAnyRun(rows: seq<Row>, table: Table,
                               cfg: WriterMachine.Config, first: seq<WriterMachine.Event>, s: WriterMachine.State,
                               cfg': WriterMachine.Config, second: seq<WriterMachine.Event>, t: WriterMachine.State)
    requires cfg.Valid() && WriterMachine.IsRun(WriterMachine.Init(cfg, table), first, s)
    requires forall r :: r in s.accepted ==> r in rows
    requires CleanPass(rows, cfg', s.table, second, t) && AllFullKeys(rows)
    ensures t.table == Apply(table, t.accepted)
  {
    SameMembers(t.accepted, rows);
    FullKeysOfMembers(s.accepted, rows);
    FullKeysOfMembers(t.accepted, rows);
    var applied := TableAfterAnyRun(cfg, table, first, s);
    MembersAreCovered(applied, t.accepted);
    CoveredReplayIsAbsorbed(table, applied, t.accepted);
    MysqlWriter.BatchingIsTransparent(cfg', s.table, second, t);
  }

  lemma FullKeysOfMembers(xs: seq<Row>, rows: seq<Row>)
    requires AllFullKeys(rows) && forall r :: r in xs ==> r in rows
    ensures AllFullKeys(xs)
  {
    forall i | 0 <= i < |xs|
      ensures HasFullKey(xs[i])
    {
      assert xs[i] in xs;
    }
  }

  /** If no two different rows share a key, or the rows were accepted in file order, the table is
      what upserting the rows of the log in file order makes of it. */
  lemma CleanPassIsFileOrder(rows: seq<Row>, table: Table, accepted: seq<Row>)
    requires multiset(accepted) == multiset(rows)
    requires KeysTellRowsApart(rows) || accepted == rows
    ensures Apply(table, accepted) == Apply(table, rows)
  {
    if accepted != rows {
      OrderDoesNotMatter(table, rows, accepted);
    }
  }

  /** A replay repairs any earlier run: whatever the first daemon did with the log as it was then,
      a clean pass over the log from its beginning, however it has grown, leaves the table as if
      that pass had been the only one. */
  lemma ReplayRepairsAnyRun<R>(f: Framer, decode: Bytes -> Option<R>, convert: R -> Option<Row>,
                               log: Bytes, more: Bytes, table: Table,
                               cfg: WriterMachine.Config, first: seq<WriterMachine.Event>, s: WriterMachine.State,
                               cfg': WriterMachine.Config, second: seq<WriterMachine.Event>, t: WriterMachine.State)
    requires f.Lawful() && cfg.Valid()
    requires WriterMachine.IsRun(WriterMachine.Init(cfg, table), first, s)
    requires forall r :: r in s.accepted ==> r in LogRows(f, decode, convert, log)
    requires CleanPass(LogRows(f, decode, convert, log + more), cfg', s.table, second, t)
    requires AllFullKeys(LogRows(f, decode, convert, log + more))
    ensures t.table == Apply(table, t.accepted)
    ensures var rows := LogRows(f, decode, convert, log + more);
      KeysTellRowsApart(rows) || t.accepted == rows ==> t.table == Apply(table, rows)
  {
    var rows := LogRows(f, decode, convert, log + more);
    RowsOfGrownLog(f, decode, convert, log, more);
    PrefixMembers(LogRows(f, decode, convert, log), rows);
    CleanPassRepairsAnyRun(rows, table, cfg, first, s, cfg', second, t);
    if KeysTellRowsApart(rows) || t.accepted == rows {
      CleanPassIsFileOrder(rows, table, t.accepted);
    }
  }

  lemma PrefixMembers(xs: seq<Row>, ys: seq<Row>)
    requires xs <= ys
    ensures forall r :: r in xs ==> r in ys
  {
    forall r | r in xs
      ensures r in ys
    {
      var i :| 0 <= i < |xs| && xs[i] == r;
      assert ys[i] == r;
    }
  }

  lemma MembersAreCovered(xs: seq<Row>, ys: seq<Row>)
    requires AllFullKeys(ys) && forall r :: r in xs ==> r in ys
    ensures Covers(ys, xs)
  {
    forall i | 0 <= i < |xs|
      ensures HasFullKey(xs[i]) && LastWith(ys, KeyOf(xs[i])).Some?
    {
      assert xs[i] in xs;
      var j :| 0 <= j < |ys| && ys[j] == xs[i];
      LastWithFinds(ys, KeyOf(xs[i]));
    }
  }

  /** The reader has got to the end of the first file it opened: it has gone on to another one, or
      everything in it has been read. */
  predicate PastFirstFile(u: ReaderMachine.State) {
    && u.phase == ReaderMachine.Idle && u.fd.Some?
    && (u.closed != [] || u.fd.value.offset == |ReaderMachine.Content(u.fs, u.fd.value.inode)|)
  }

  /** The first file the reader opened, as it is now. */
  function FirstFile(u: ReaderMachine.State): Bytes
    requires u.fd.Some?
  {
    ReaderMachine.Content(u.fs, ReaderMachine.Spans(u)[0].inode)
  }

  lemma {:induction false} FirstOfWhole(f: Framer, fs: FileSystem.FileSystem, entered: seq<nat>)
    requires entered != []
    ensures f.Frames(Rotation.From(fs, entered[0], 0)) <= Rotation.Whole(f, fs, entered, 0)
    decreases |entered|
  {
    var n := |entered| - 1;
    if n == 0 {
      assert Rotation.Whole(f, fs, entered[..0], 0) == [];
    } else {
      FirstOfWhole(f, fs, entered[..n]);
    }
  }

  /** A daemon started with `-b` has parsed the first file it opened from its first byte to its
      last once it is past it, whatever has been rotated since, and nothing else before it. */
  lemma FirstFileIsDelivered(f: Framer, fs: FileSystem.FileSystem, steps: seq<ReaderMachine.Event>)
    requires f.Lawful() && fs.Valid() && Rotation.ReadsSucceed(steps)
    ensures var u := ReaderMachine.Run(ReaderMachine.Init(f, fs, true), steps);
      PastFirstFile(u) ==>
        f.Frames(FirstFile(u)) <= u.frames && (u.closed == [] ==> u.frames == f.Frames(FirstFile(u)))
  {
    var u := ReaderMachine.Run(ReaderMachine.Init(f, fs, true), steps);
    if PastFirstFile(u) {
      Rotation.RotationLosesAndRepeatsNothing(f, fs, true, steps);
      var entered := Rotation.Inodes(ReaderMachine.Spans(u));
      var file, n := FirstFile(u), |entered| - 1;
      assert file[0..|file|] == file;
      if n == 0 {
        assert entered[..0] == [];
      } else {
        FirstOfWhole(f, u.fs, entered[..n]);
      }
    }
  }

  /** From file to table: a daemon is started with `-b` on a log that an earlier daemon has been
      through, well or badly, and the log may be rotated under it. Once it is past the first file,
      and its writer has got every row through, it leaves the table as if it had been the first
      to run. */
  lemma ReplayDaemonRepairsAnyRun<R>(
      f: Framer, decode: Bytes -> Option<R>, convert: R -> Option<Row>, log: Bytes, table: Table,
      cfg: WriterMachine.Config, first: seq<WriterMachine.Event>, s: WriterMachine.State,
      fs: FileSystem.FileSystem, steps: seq<ReaderMachine.Event>, u: ReaderMachine.State,
      cfg': WriterMachine.Config, second: seq<WriterMachine.Event>, t: WriterMachine.State)
    requires f.Lawful() && cfg.Valid() && fs.Valid()
    requires WriterMachine.IsRun(WriterMachine.Init(cfg, table), first, s)
    requires forall r :: r in s.accepted ==> r in LogRows(f, decode, convert, log)
    requires Rotation.ReadsSucceed(steps) && u == ReaderMachine.Run(ReaderMachine.Init(f, fs, true), steps)
    requires PastFirstFile(u) && log <= FirstFile(u)
    requires CleanPass(FrameRows(decode, convert, u.frames), cfg', s.table, second, t)
    requires AllFullKeys(FrameRows(decode, convert, u.frames))
    ensures t.table == Apply(table, t.accepted)
    ensures var rows := FrameRows(decode, convert, u.frames);
      KeysTellRowsApart(rows) || t.accepted == rows ==> t.table == Apply(table, rows)
  {
    var rows, file := FrameRows(decode, convert, u.frames), FirstFile(u);
    FirstFileIsDelivered(f, fs, steps);
    PrefixRows(decode, convert, f.Frames(file), u.frames);
    assert log + file[|log|..] == file;
    RowsOfGrownLog(f, decode, convert, log, file[|log|..]);
    PrefixMembers(LogRows(f, decode, convert, log), rows);
    CleanPassRepairsAnyRun(rows, table, cfg, first, s, cfg', second, t);
    if KeysTellRowsApart(rows) || t.accepted == rows {
      CleanPassIsFileOrder(rows, table, t.accepted);
    }
  }
}
