/** The second half of Start in bfe_log_reader/pb_log_reader.go: records are cut into batches, and
    each batch is given to each module in a goroutine of its own. */
module FanOut {
  import opened Sequences

  /** Cuts records into consecutive batches of at most maxSize (one batch if maxSize <= 0), all
      full but the last: as many as the records need and no more. */
  method SplitBatches<R>(records: seq<R>, maxSize: int) returns (batches: seq<seq<R>>)
    ensures Flatten(batches) == records
    ensures forall b :: b in batches ==> b != []
    ensures maxSize <= 0 ==> |batches| <= 1
    ensures maxSize > 0 ==> (forall j :: 0 <= j < |batches| ==>
      |batches[j]| <= maxSize && (j + 1 < |batches| ==> |batches[j]| == maxSize))
    ensures maxSize > 0 && records != [] ==> (|batches| - 1) * maxSize < |records| <= |batches| * maxSize
  {
    batches := [];
    var i := 0;
    while i < |records|
      invariant 0 <= i <= |records|
      invariant Flatten(batches) == records[..i]
      invariant forall b :: b in batches ==> b != []
      invariant maxSize <= 0 ==> |batches| == (if i == 0 then 0 else 1) && (i == 0 || i == |records|)
      invariant maxSize > 0 ==> forall j :: 0 <= j < |batches| ==>
        |batches[j]| <= maxSize && (j + 1 < |batches| || i < |records| ==> |batches[j]| == maxSize)
      invariant maxSize > 0 && i < |records| ==> i == |batches| * maxSize
      invariant maxSize > 0 && 0 < i ==> (|batches| - 1) * maxSize < i <= |batches| * maxSize
    {
      var batch;
      ghost var from := i;
      if maxSize > 0 {
        var end := i + maxSize;
        if end > |records| {
          end := |records|;
        }
        batch := records[i..end];
        i := end;
        assert (|batches| + 1) * maxSize == |batches| * maxSize + maxSize;
      } else {
        batch := records;
        i := |batch|;
      }
      FlattenSnoc(batches, batch);
      assert records[..from] + batch == records[..i];
      batches := batches + [batch];
    }
    assert records[..|records|] == records;
  }

  // ---------------------------------------------------------------- interleaving

  /** One module while its batches are being handed to it: `left[b]` is what goroutine b still
      has to hand over, `offered` what the module has received, with the batch it came from. */
  datatype Offer<R> = Offer(batch: nat, record: R)
  datatype State<R> = State(left: seq<seq<R>>, offered: seq<Offer<R>>)

  /** Goroutine b hands over its next record; nothing happens if it has none left. */
  function Step<R>(s: State<R>, b: nat): State<R> {
    if b < |s.left| && s.left[b] != [] then
      State(s.left[b := s.left[b][1..]], s.offered + [Offer(b, s.left[b][0])])
    else s
  }

  function Run<R>(s: State<R>, schedule: seq<nat>): State<R>
    decreases |schedule|
  {
    if schedule == [] then s
    else Step(Run(s, schedule[..|schedule| - 1]), schedule[|schedule| - 1])
  }

  /** What the module has received from batch b, in the order received. */
  function FromBatch<R>(offered: seq<Offer<R>>, b: nat): seq<R>
    decreases |offered|
  {
    if offered == [] then []
    else
      var n := |offered| - 1;
      FromBatch(offered[..n], b) + if offered[n].batch == b then [offered[n].record] else []
  }

  function Received<R>(offered: seq<Offer<R>>): seq<R> {
    seq(|offered|, i requires 0 <= i < |offered| => offered[i].record)
  }

  lemma FromBatchSnoc<R>(offered: seq<Offer<R>>, o: Offer<R>, b: nat)
    ensures FromBatch(offered + [o], b) == FromBatch(offered, b) + if o.batch == b then [o.record] else []
  {
    assert (offered + [o])[..|offered|] == offered;
  }

  lemma StepKeepsOrder<R>(s: State<R>, c: nat, b: nat)
    requires b < |s.left|
    ensures var t := Step(s, c);
      |t.left| == |s.left| && FromBatch(t.offered, b) + t.left[b] == FromBatch(s.offered, b) + s.left[b]
  {
    if c < |s.left| && s.left[c] != [] {
      FromBatchSnoc(s.offered, Offer(c, s.left[c][0]), b);
      if c == b {
        assert s.left[b] == [s.left[b][0]] + s.left[b][1..];
      }
    }
  }

  /** Under every interleaving each batch arrives in its own order: what has come from it,
      followed by what is still to come, is the batch. */
  lemma {:induction false} EachBatchArrivesInOrder<R>(batches: seq<seq<R>>, schedule: seq<nat>, b: nat)
    requires b < |batches|
    ensures var s := Run(State(batches, []), schedule);
      |s.left| == |batches| && FromBatch(s.offered, b) + s.left[b] == batches[b]
    decreases |schedule|
  {
    if schedule != [] {
      var before := Run(State(batches, []), schedule[..|schedule| - 1]);
      var c := schedule[|schedule| - 1];
      EachBatchArrivesInOrder(batches, schedule[..|schedule| - 1], b);
      StepKeepsOrder(before, c, b);
    }
  }

  /** Under every interleaving no record is lost, repeated or made up on the way. */
  lemma {:induction false} NothingIsLostOnTheWay<R>(batches: seq<seq<R>>, schedule: seq<nat>)
    ensures var s := Run(State(batches, []), schedule);
      |s.left| == |batches|
      && multiset(Received(s.offered)) + multiset(Flatten(s.left)) == multiset(Flatten(batches))
    decreases |schedule|
  {
    if schedule == [] {
      assert Received<R>([]) == [];
    } else {
      var n := |schedule| - 1;
      var s, c := Run(State(batches, []), schedule[..n]), schedule[n];
      NothingIsLostOnTheWay(batches, schedule[..n]);
      if c < |s.left| && s.left[c] != [] {
        var t := Step(s, c);
        assert Received(t.offered) == Received(s.offered) + [s.left[c][0]];
        TakeOne(s.left, c);
      }
    }
  }

  lemma TakeOne<R>(left: seq<seq<R>>, c: nat)
    requires c < |left| && left[c] != []
    ensures multiset(Flatten(left)) == multiset{left[c][0]} + multiset(Flatten(left[c := left[c][1..]]))
  {
    var a, x, z := left[..c], left[c], left[c + 1..];
    assert left == a + ([x] + z) && left[c := x[1..]] == a + ([x[1..]] + z);
    FlattenAppend(a, [x] + z);
    FlattenAppend(a, [x[1..]] + z);
    assert ([x] + z)[1..] == z && ([x[1..]] + z)[1..] == z;
    assert x == [x[0]] + x[1..];
  }

  /** Once every goroutine is done, each module has been offered every record exactly once. */
  lemma FanOutDeliversEverything<R>(records: seq<R>, batches: seq<seq<R>>, schedule: seq<nat>)
    requires Flatten(batches) == records
    requires forall rest :: rest in Run(State(batches, []), schedule).left ==> rest == []
    ensures var s := Run(State(batches, []), schedule);
      && multiset(Received(s.offered)) == multiset(records)
      && forall b: nat :: b < |batches| ==> FromBatch(s.offered, b) == batches[b]
  {
    var s := Run(State(batches, []), schedule);
    NothingIsLostOnTheWay(batches, schedule);
    forall b: nat | b < |batches|
      ensures FromBatch(s.offered, b) == batches[b] && s.left[b] == []
    {
      EachBatchArrivesInOrder(batches, schedule, b);
      assert s.left[b] in s.left;
    }
    AllDone(s.left);
  }

  lemma {:induction false} AllDone<R>(left: seq<seq<R>>)
    requires forall b :: 0 <= b < |left| ==> left[b] == []
    ensures Flatten(left) == []
  {
    if left != [] {
      AllDone(left[1..]);
    }
  }
}
