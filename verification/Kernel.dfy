/** The operating system as a program sees it: before every system call other processes may have
    changed the log, and the call may fail or return less than was asked for. All of that is
    fixed in advance by an arbitrary `schedule`, so what is proved holds for every schedule. */
module Kernel {
  import opened Sequences
  import opened FileSystem

  /** What happens up to and during one system call. */
  datatype Turn = Turn(changes: seq<Change>, fault: bool, amount: nat)

  /** A point in time: what the log was, and which turn was next. */
  datatype Origin = Origin(fs: FileSystem, tick: nat)

  /** The log before turn `next`, given what it was at an earlier point. */
  function Evolve(schedule: nat -> Turn, o: Origin, next: nat): FileSystem
    requires o.tick <= next
    decreases next
  {
    if next == o.tick then o.fs else ApplyAll(Evolve(schedule, o, next - 1), schedule(next - 1).changes)
  }

  lemma {:induction false} EvolveGrows(schedule: nat -> Turn, o: Origin, a: nat, b: nat)
    requires o.tick <= a <= b
    ensures Grows(Evolve(schedule, o, a), Evolve(schedule, o, b))
    decreases b
  {
    if a < b {
      EvolveGrows(schedule, o, a, b - 1);
      ChangesGrow(Evolve(schedule, o, b - 1), schedule(b - 1).changes);
    }
  }

  /** What one file holds stays there. */
  lemma EvolveKeeps(schedule: nat -> Turn, o: Origin, a: nat, b: nat, inode: nat)
    requires o.tick <= a <= b
    ensures |Evolve(schedule, o, a).files| <= |Evolve(schedule, o, b).files|
    ensures inode < |Evolve(schedule, o, a).files| ==>
      Evolve(schedule, o, a).files[inode] <= Evolve(schedule, o, b).files[inode]
  {
    EvolveGrows(schedule, o, a, b);
  }

  /** What stat answers: the file the path names, and its size. */
  datatype Seen = Seen(inode: nat, size: nat)

  /** The answer to a stat in a given turn, if it does not fail. */
  function StatAnswer(schedule: nat -> Turn, o: Origin, turn: nat): Option<Seen>
    requires o.tick <= turn
  {
    var fs := Evolve(schedule, o, turn + 1);
    if schedule(turn).fault || !fs.named || fs.files == [] then None
    else Some(Seen(|fs.files| - 1, |fs.files[|fs.files| - 1]|))
  }

  class Kernel {
    const schedule: nat -> Turn
    var tick: nat
    var fs: FileSystem

    constructor (schedule: nat -> Turn, fs: FileSystem)
      ensures this.schedule == schedule && this.fs == fs && tick == 0
    {
      this.schedule := schedule;
      this.fs := fs;
      tick := 0;
    }

    /** The log is what the turns since `o` have made of it. */
    ghost predicate Since(o: Origin)
      reads this
    {
      o.tick <= tick && fs == Evolve(schedule, o, tick)
    }

    /** A system call begins: the log changes as scheduled. */
    method Enter() returns (t: Turn)
      modifies this
      ensures t == schedule(old(tick)) && tick == old(tick) + 1
      ensures fs == ApplyAll(old(fs), t.changes)
    {
      t := schedule(tick);
      tick := tick + 1;
      fs := ApplyAll(fs, t.changes);
    }
  }
}
