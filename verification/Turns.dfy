/** A goroutine that takes turns: in turn k it is handed schedule(k), which says what happens around
    it, and takes one step. */
module Turns {

  /** past[k] is the state before turn k, and the turn makes the next one of it. */
  ghost predicate Follows<S(!new), T>(past: seq<S>, step: (S, T) -> S, schedule: nat -> T, k: nat)
    requires k + 1 < |past|
  {
    past[k + 1] == step(past[k], schedule(k))
  }

  ghost predicate IsPast<S(!new), T>(past: seq<S>, step: (S, T) -> S, schedule: nat -> T, from: nat, until: nat) {
    |past| == until + 1 && forall k: nat :: from <= k < until ==> Follows(past, step, schedule, k)
  }

  /** The turns from `from` up to, but not including, `until` lead from s to t. */
  ghost predicate Ran<S(!new), T>(s: S, step: (S, T) -> S, schedule: nat -> T, from: nat, t: S, until: nat) {
    from <= until && exists past :: IsPast(past, step, schedule, from, until) && past[from] == s && past[until] == t
  }

  lemma NoTurn<S(!new), T>(s: S, step: (S, T) -> S, schedule: nat -> T, from: nat)
    ensures Ran(s, step, schedule, from, s, from)
  {
    assert IsPast(seq(from + 1, _ => s), step, schedule, from, from);
  }

  lemma OneTurn<S(!new), T>(s: S, step: (S, T) -> S, schedule: nat -> T, from: nat)
    ensures Ran(s, step, schedule, from, step(s, schedule(from)), from + 1)
  {
    var past := seq(from + 1, _ => s) + [step(s, schedule(from))];
    assert Follows(past, step, schedule, from);
    assert IsPast(past, step, schedule, from, from + 1);
  }

  lemma TurnsJoin<S(!new), T>(s: S, step: (S, T) -> S, schedule: nat -> T, from: nat, t: S, mid: nat, u: S, until: nat)
    requires Ran(s, step, schedule, from, t, mid) && Ran(t, step, schedule, mid, u, until)
    ensures Ran(s, step, schedule, from, u, until)
  {
    var a :| IsPast(a, step, schedule, from, mid) && a[from] == s && a[mid] == t;
    var b :| IsPast(b, step, schedule, mid, until) && b[mid] == t && b[until] == u;
    var past := a[..mid] + b[mid..];
    forall k: nat | from <= k < until
      ensures Follows(past, step, schedule, k)
    {
      assert if k < mid then Follows(a, step, schedule, k) else Follows(b, step, schedule, k);
    }
    assert IsPast(past, step, schedule, from, until) && past[from] == s && past[until] == u;
  }

  /** The state before the last turn. */
  lemma LastTurn<S(!new), T>(s: S, step: (S, T) -> S, schedule: nat -> T, from: nat, t: S, until: nat) returns (u: S)
    requires from < until && Ran(s, step, schedule, from, t, until)
    ensures Ran(s, step, schedule, from, u, until - 1) && t == step(u, schedule(until - 1))
  {
    var past :| IsPast(past, step, schedule, from, until) && past[from] == s && past[until] == t;
    var before := past[..until];
    forall k: nat | from <= k < until - 1
      ensures Follows(before, step, schedule, k)
    {
      assert Follows(past, step, schedule, k);
    }
    assert IsPast(before, step, schedule, from, until - 1) && before[from] == s;
    assert Follows(past, step, schedule, until - 1);
    u := before[until - 1];
  }

  lemma NoTurnLeft<S(!new), T>(s: S, step: (S, T) -> S, schedule: nat -> T, from: nat, t: S)
    requires Ran(s, step, schedule, from, t, from)
    ensures t == s
  {
  }

  /** The turns from k on are turns too. */
  lemma LaterTurns<S(!new), T>(past: seq<S>, step: (S, T) -> S, schedule: nat -> T, from: nat, k: nat, until: nat)
    requires from <= k <= until && IsPast(past, step, schedule, from, until)
    ensures IsPast(past, step, schedule, k, until)
  {
  }

  /** What every turn keeps holds after any number of them. */
  lemma {:induction false} TurnsKeep<S(!new), T(!new)>(past: seq<S>, step: (S, T) -> S, schedule: nat -> T, from: nat,
                                                       k: nat, until: nat, good: S -> bool)
    requires from <= k <= until && IsPast(past, step, schedule, from, until) && good(past[from])
    requires forall s, t :: good(s) ==> good(step(s, t))
    ensures good(past[k])
    decreases k
  {
    if from < k {
      TurnsKeep(past, step, schedule, from, k - 1, until, good);
      assert Follows(past, step, schedule, k - 1);
    }
  }
}
