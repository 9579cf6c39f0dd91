/** What becomes of the table when the goroutines that hand the batches of a module to it
    (bfe_log_reader/pb_log_reader.go) interleave: each batch arrives in its own order, but rows of
    other batches may come in between. */
module Interleaving {
  import opened Sequences
  import opened DetailTable
  import opened FanOut

  // ---------------------------------------------------------------- rows of a fan-out

  /** Every goroutine has handed over its whole batch. */
  ghost predicate Done<R>(batches: seq<seq<R>>, schedule: seq<nat>) {
    forall rest :: rest in Run(State(batches, []), schedule).left ==> rest == []
  }

  /** The rows that Update makes of the records, in the order in which it gets them. */
  function ArrivedRows<R>(batches: seq<seq<R>>, schedule: seq<nat>, convert: R -> Option<Row>): seq<Row> {
    FilterMap(convert, Received(Run(State(batches, []), schedule).offered))
  }

  lemma MiddleOut<T>(a: seq<T>, b: seq<T>, c: seq<T>)
    ensures multiset(a + b + c) == multiset(a + c) + multiset(b)
  {
  }

  lemma CancelOne<T>(a: multiset<T>, b: multiset<T>, x: T)
    requires a + multiset{x} == b + multiset{x}
    ensures a == b
  {
    assert a == (a + multiset{x}) - multiset{x};
  }

  lemma RowsAround<R>(convert: R -> Option<Row>, a: seq<R>, x: R, z: seq<R>)
    ensures multiset(FilterMap(convert, a + [x] + z))
         == multiset(FilterMap(convert, a + z)) + multiset(Listed(convert(x)))
  {
    FilterMapAppend(convert, a + [x], z);
    FilterMapSnoc(convert, a, x);
    FilterMapAppend(convert, a, z);
    MiddleOut(FilterMap(convert, a), Listed(convert(x)), FilterMap(convert, z));
  }

  lemma Around<R>(xs: seq<R>, i: nat)
    requires i < |xs|
    ensures xs == xs[..i] + [xs[i]] + xs[i + 1..]
  {
  }

  lemma {:induction false} SameRecordsSameRows<R>(convert: R -> Option<Row>, xs: seq<R>, ys: seq<R>)
    requires multiset(xs) == multiset(ys)
    ensures multiset(FilterMap(convert, xs)) == multiset(FilterMap(convert, ys))
    decreases |xs|
  {
    if xs == [] {
      assert |multiset(ys)| == 0;
    } else {
      assert xs[0] in multiset(ys);
      var i: nat :| i < |ys| && ys[i] == xs[0];
      var rest, a, z := xs[1..], ys[..i], ys[i + 1..];
      Around(xs, 0);
      Around(ys, i);
      MiddleOut([], [xs[0]], rest);
      MiddleOut(a, [xs[0]], z);
      CancelOne(multiset(rest), multiset(a + z), xs[0]);
      SameRecordsSameRows(convert, rest, a + z);
      RowsAround(convert, [], xs[0], rest);
      RowsAround(convert, a, xs[0], z);
    }
  }

  /** Once all is handed over, the rows are those of the records, in some order. */
  lemma EveryRowArrives<R>(batches: seq<seq<R>>, schedule: seq<nat>, convert: R -> Option<Row>)
    requires Done(batches, schedule)
    ensures multiset(ArrivedRows(batches, schedule, convert)) == multiset(FilterMap(convert, Flatten(batches)))
  {
    FanOutDeliversEverything(Flatten(batches), batches, schedule);
    SameRecordsSameRows(convert, Received(Run(State(batches, []), schedule).offered), Flatten(batches));
  }

  // ---------------------------------------------------------------- the last row with a key

  lemma {:induction false} LastWithAppend(xs: seq<Row>, ys: seq<Row>, k: Key)
    ensures LastWith(xs + ys, k) == if LastWith(ys, k).Some? then LastWith(ys, k) else LastWith(xs, k)
    decreases |ys|
  {
    if ys == [] {
      assert xs + ys == xs;
    } else {
      var n := |ys| - 1;
      assert (xs + ys)[..|xs + ys| - 1] == xs + ys[..n];
      LastWithAppend(xs, ys[..n], k);
    }
  }

  lemma ReceivedSnoc<R>(offered: seq<Offer<R>>, o: Offer<R>)
    ensures Received(offered + [o]) == Received(offered) + [o.record]
  {
  }

  /** The last row with a key is the last one with that key of the batch it came from. */
  lemma {:induction false} LastIsOfSomeBatch<R>(offered: seq<Offer<R>>, convert: R -> Option<Row>, k: Key)
      returns (b: nat)
    ensures var last := LastWith(FilterMap(convert, Received(offered)), k);
      last.Some? ==> (exists i :: 0 <= i < |offered| && offered[i].batch == b)
                     && LastWith(FilterMap(convert, FromBatch(offered, b)), k) == last
    decreases |offered|
  {
    b := 0;
    if offered == [] {
      assert Received(offered) == [];
    } else {
      var n := |offered| - 1;
      var earlier, o := offered[..n], offered[n];
      assert offered == earlier + [o];
      ReceivedSnoc(earlier, o);
      FilterMapAppend(convert, Received(earlier), [o.record]);
      var row := FilterMap(convert, [o.record]);
      LastWithAppend(FilterMap(convert, Received(earlier)), row, k);
      if LastWith(row, k).Some? {
        b := o.batch;
      } else {
        b := LastIsOfSomeBatch(earlier, convert, k);
      }
      FromBatchSnoc(earlier, o, b);
      if o.batch == b {
        FilterMapAppend(convert, FromBatch(earlier, b), [o.record]);
        LastWithAppend(FilterMap(convert, FromBatch(earlier, b)), row, k);
      } else {
        assert FromBatch(earlier, b) + [] == FromBatch(earlier, b);
      }
      if LastWith(row, k).Some? {
        assert offered[n].batch == b;
      } else if LastWith(FilterMap(convert, Received(offered)), k).Some? {
        var i :| 0 <= i < n && earlier[i].batch == b;
        assert offered[i].batch == b;
      }
    }
  }

  lemma {:induction false} OffersAreOfBatches<R>(batches: seq<seq<R>>, schedule: seq<nat>)
    ensures var s := Run(State(batches, []), schedule);
      |s.left| == |batches| && forall i :: 0 <= i < |s.offered| ==> s.offered[i].batch < |batches|
    decreases |schedule|
  {
    if schedule != [] {
      OffersAreOfBatches(batches, schedule[..|schedule| - 1]);
    }
  }

  lemma LastArrivedIsOfSomeBatch<R>(batches: seq<seq<R>>, schedule: seq<nat>, convert: R -> Option<Row>, k: Key)
      returns (b: nat)
    requires Done(batches, schedule)
    ensures var last := LastWith(ArrivedRows(batches, schedule, convert), k);
      last.Some? ==> b < |batches| && LastWith(FilterMap(convert, batches[b]), k) == last
  {
    var s := Run(State(batches, []), schedule);
    b := LastIsOfSomeBatch(s.offered, convert, k);
    FanOutDeliversEverything(Flatten(batches), batches, schedule);
    OffersAreOfBatches(batches, schedule);
  }

  // ---------------------------------------------------------------- running one batch last

  lemma {:induction false} RunAppend<R>(s: State<R>, a: seq<nat>, b: seq<nat>)
    ensures Run(s, a + b) == Run(Run(s, a), b)
    decreases |b|
  {
    if b == [] {
      assert a + b == a;
    } else {
      var n := |b| - 1;
      assert (a + b)[..|a + b| - 1] == a + b[..n];
      RunAppend(s, a, b[..n]);
    }
  }

  /** Goroutine b hands over all it has left. */
  lemma {:induction false} DrainOne<R>(s: State<R>, b: nat) returns (schedule: seq<nat>)
    requires b < |s.left|
    ensures var t := Run(s, schedule);
      t.left == s.left[b := []] && Received(t.offered) == Received(s.offered) + s.left[b]
    decreases |s.left[b]|
  {
    if s.left[b] == [] {
      schedule := [];
      assert s.left[b := []] == s.left;
    } else {
      var t := Step(s, b);
      var later := DrainOne(t, b);
      schedule := [b] + later;
      RunAppend(s, [b], later);
      assert [b][..0] == [];
      assert Run(s, [b]) == Step(Run(s, []), b);
      ReceivedSnoc(s.offered, Offer(b, s.left[b][0]));
      assert Received(s.offered) + [s.left[b][0]] + s.left[b][1..] == Received(s.offered) + s.left[b];
      assert t.left[b := []] == s.left[b := []];
    }
  }

  /** The first n goroutines hand over all they have left, except one. */
  lemma {:induction false} DrainOthers<R>(s: State<R>, n: nat, last: nat) returns (schedule: seq<nat>)
    requires n <= |s.left|
    ensures var t := Run(s, schedule);
      && |t.left| == |s.left|
      && (forall i :: 0 <= i < |s.left| ==> t.left[i] == if i < n && i != last then [] else s.left[i])
    decreases n
  {
    if n == 0 {
      schedule := [];
    } else {
      var first := DrainOthers(s, n - 1, last);
      if n - 1 == last {
        schedule := first;
      } else {
        var rest := DrainOne(Run(s, first), n - 1);
        schedule := first + rest;
        RunAppend(s, first, rest);
      }
    }
  }

  /** One batch may be handed over after all the others. */
  lemma OneComesLast<R>(batches: seq<seq<R>>, b: nat, convert: R -> Option<Row>, k: Key) returns (schedule: seq<nat>)
    requires b < |batches| && LastWith(FilterMap(convert, batches[b]), k).Some?
    ensures Done(batches, schedule)
    ensures LastWith(ArrivedRows(batches, schedule, convert), k) == LastWith(FilterMap(convert, batches[b]), k)
  {
    var s := State(batches, []);
    var first := DrainOthers(s, |batches|, b);
    var mid := Run(s, first);
    var rest := DrainOne(mid, b);
    schedule := first + rest;
    RunAppend(s, first, rest);
    FilterMapAppend(convert, Received(mid.offered), batches[b]);
    LastWithAppend(FilterMap(convert, Received(mid.offered)), FilterMap(convert, batches[b]), k);
  }

  // ---------------------------------------------------------------- the table

  /** For every full key, all batches that have a row with it end with the same one. */
  ghost predicate BatchesAgree<R>(batches: seq<seq<R>>, convert: R -> Option<Row>) {
    forall k: Key, a: nat, b: nat :: a < |batches| && b < |batches| && Null !in k
      && LastWith(FilterMap(convert, batches[a]), k).Some? && LastWith(FilterMap(convert, batches[b]), k).Some?
      ==> LastWith(FilterMap(convert, batches[a]), k) == LastWith(FilterMap(convert, batches[b]), k)
  }

  /** Two goroutines may interleave their batches in any way: all ways leave the same table. */
  ghost predicate SameTableAlways<R>(t: Table, batches: seq<seq<R>>, convert: R -> Option<Row>) {
    forall s, u :: Done(batches, s) && Done(batches, u) ==>
      Apply(t, ArrivedRows(batches, s, convert)) == Apply(t, ArrivedRows(batches, u, convert))
  }

  lemma AgreeingBatchesInterleave<R>(t: Table, batches: seq<seq<R>>, convert: R -> Option<Row>,
                                     s: seq<nat>, u: seq<nat>)
    requires BatchesAgree(batches, convert) && Done(batches, s) && Done(batches, u)
    ensures Apply(t, ArrivedRows(batches, s, convert)) == Apply(t, ArrivedRows(batches, u, convert))
  {
    var xs, ys := ArrivedRows(batches, s, convert), ArrivedRows(batches, u, convert);
    EveryRowArrives(batches, s, convert);
    EveryRowArrives(batches, u, convert);
    SameMembers(xs, ys);
    forall k: Key | Null !in k
      ensures LastWith(xs, k) == LastWith(ys, k)
    {
      LastWithFinds(xs, k);
      LastWithFinds(ys, k);
      var a := LastArrivedIsOfSomeBatch(batches, s, convert, k);
      var b := LastArrivedIsOfSomeBatch(batches, u, convert, k);
    }
    SameLastSameTable(t, xs, ys);
  }

  /** The order in which the goroutines hand over the batches of a module makes no difference to
      the table exactly if for every full key all batches that have a row with it end with the same
      one. Within a batch the last row with a key wins, as it would without any concurrency. */
  lemma InterleavingDoesNotMatterIff<R>(t: Table, batches: seq<seq<R>>, convert: R -> Option<Row>)
    ensures SameTableAlways(t, batches, convert) <==> BatchesAgree(batches, convert)
  {
    if BatchesAgree(batches, convert) {
      forall s, u | Done(batches, s) && Done(batches, u)
        ensures Apply(t, ArrivedRows(batches, s, convert)) == Apply(t, ArrivedRows(batches, u, convert))
      {
        AgreeingBatchesInterleave(t, batches, convert, s, u);
      }
    } else {
      var k: Key, a: nat, b: nat :| a < |batches| && b < |batches| && Null !in k
        && LastWith(FilterMap(convert, batches[a]), k).Some? && LastWith(FilterMap(convert, batches[b]), k).Some?
        && LastWith(FilterMap(convert, batches[a]), k) != LastWith(FilterMap(convert, batches[b]), k);
      var s := OneComesLast(batches, a, convert, k);
      var u := OneComesLast(batches, b, convert, k);
      ApplyKeyByKey(t, ArrivedRows(batches, s, convert), k);
      ApplyKeyByKey(t, ArrivedRows(batches, u, convert), k);
      assert Apply(t, ArrivedRows(batches, s, convert)) != Apply(t, ArrivedRows(batches, u, convert));
    }
  }
}
