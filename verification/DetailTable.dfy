/** The MySQL table behind the writer. Its unique key is (hostid, log_time, ai_apikey_id,
    ai_requested_model), the first four columns of a row; as in MySQL, a key with a NULL in it is
    never equal to another, so such rows are not deduplicated. The statement the writer sends is
    an insert that on a key conflict overwrites every column. */
module DetailTable {
  import opened Sequences

  datatype Cell = Null | Text(text: string) | Number(number: int) | Time(seconds: int)

  const KEY_COLUMNS: nat := 4

  /** A row as the mapper builds it; the key columns come first. */
  type Row = seq<Cell>
  type Key = seq<Cell>

  function KeyOf(row: Row): Key {
    if |row| >= KEY_COLUMNS then row[..KEY_COLUMNS] else row
  }

  predicate HasFullKey(row: Row) {
    Null !in KeyOf(row)
  }

  predicate AllFullKeys(rows: seq<Row>) {
    forall i :: 0 <= i < |rows| ==> HasFullKey(rows[i])
  }

  /** The rows with a full key, at most one for each, and the others, as often as inserted. */
  datatype Table = Table(keyed: map<Key, Row>, loose: multiset<Row>)

  function Upsert(t: Table, row: Row): Table {
    if HasFullKey(row) then t.(keyed := t.keyed[KeyOf(row) := row])
    else t.(loose := t.loose + multiset{row})
  }

  /** hostid and log_time, the first two columns, may not be NULL. */
  predicate Storable(row: Row) {
    |row| >= 2 ==> row[0] != Null && row[1] != Null
  }

  predicate AllStorable(rows: seq<Row>) {
    forall i :: 0 <= i < |rows| ==> Storable(rows[i])
  }

  /** One transaction: a single row that cannot be stored makes the whole of it fail. */
  function Transact(t: Table, rows: seq<Row>): Table {
    Apply(t, Stored(rows))
  }

  /** What of a transaction reaches the table. */
  function Stored(rows: seq<Row>): seq<Row> {
    if AllStorable(rows) then rows else []
  }

  /** Applying a batch: the rows one after the other. */
  function Apply(t: Table, rows: seq<Row>): Table
    decreases |rows|
  {
    if rows == [] then t
    else Upsert(Apply(t, rows[..|rows| - 1]), rows[|rows| - 1])
  }

  lemma {:induction false} ApplyAppend(t: Table, a: seq<Row>, b: seq<Row>)
    ensures Apply(t, a + b) == Apply(Apply(t, a), b)
    decreases |b|
  {
    if b == [] {
      assert a + b == a;
    } else {
      var n := |b| - 1;
      assert (a + b)[..|a + b| - 1] == a + b[..n];
      ApplyAppend(t, a, b[..n]);
    }
  }

  // ---------------------------------------------------------------- what a table ends up holding

  /** The last row with a given key, if there is one. */
  function LastWith(rows: seq<Row>, k: Key): Option<Row>
    decreases |rows|
  {
    if rows == [] then None
    else
      var n := |rows| - 1;
      if KeyOf(rows[n]) == k then Some(rows[n]) else LastWith(rows[..n], k)
  }

  /** The rows whose key has a NULL. */
  function LooseRows(rows: seq<Row>): multiset<Row>
    decreases |rows|
  {
    if rows == [] then multiset{}
    else
      var n := |rows| - 1;
      LooseRows(rows[..n]) + if HasFullKey(rows[n]) then multiset{} else multiset{rows[n]}
  }

  function Lookup(t: Table, k: Key): Option<Row> {
    if k in t.keyed then Some(t.keyed[k]) else None
  }

  /** The table after a batch, key by key: the last row of the batch with that key, or what was
      there before; and the rows without a full key are added. */
  lemma {:induction false} ApplyKeyByKey(t: Table, rows: seq<Row>, k: Key)
    ensures Null !in k ==>
      Lookup(Apply(t, rows), k) == if LastWith(rows, k).Some? then LastWith(rows, k) else Lookup(t, k)
    ensures Null in k ==> Lookup(Apply(t, rows), k) == Lookup(t, k)
    ensures Apply(t, rows).loose == t.loose + LooseRows(rows)
    decreases |rows|
  {
    if rows != [] {
      ApplyKeyByKey(t, rows[..|rows| - 1], k);
    }
  }

  lemma SameLookupsSameTable(t: Table, u: Table)
    requires t.loose == u.loose
    requires forall k :: Lookup(t, k) == Lookup(u, k)
    ensures t == u
  {
    forall k
      ensures k in t.keyed <==> k in u.keyed
      ensures k in t.keyed ==> t.keyed[k] == u.keyed[k]
    {
      assert Lookup(t, k) == Lookup(u, k);
    }
    assert t.keyed == u.keyed;
  }

  lemma FullKeysSnoc(rows: seq<Row>, row: Row)
    ensures AllFullKeys(rows + [row]) <==> AllFullKeys(rows) && HasFullKey(row)
  {
    var all := rows + [row];
    assert all[|rows|] == row;
    assert forall i :: 0 <= i < |rows| ==> all[i] == rows[i];
  }

  lemma {:induction false} FullKeysAddNothingLoose(rows: seq<Row>)
    ensures LooseRows(rows) == multiset{} <==> AllFullKeys(rows)
    decreases |rows|
  {
    if rows != [] {
      var n := |rows| - 1;
      FullKeysAddNothingLoose(rows[..n]);
      assert rows == rows[..n] + [rows[n]];
      FullKeysSnoc(rows[..n], rows[n]);
      if !HasFullKey(rows[n]) {
        assert rows[n] in LooseRows(rows);
      } else {
        assert LooseRows(rows) == LooseRows(rows[..n]);
      }
    }
  }

  lemma {:induction false} LastWithFinds(rows: seq<Row>, k: Key)
    ensures LastWith(rows, k).Some? <==> exists i :: 0 <= i < |rows| && KeyOf(rows[i]) == k
    ensures LastWith(rows, k).Some? ==> LastWith(rows, k).value in rows && KeyOf(LastWith(rows, k).value) == k
    decreases |rows|
  {
    if rows != [] {
      var n := |rows| - 1;
      LastWithFinds(rows[..n], k);
      if KeyOf(rows[n]) != k {
        assert forall i :: 0 <= i < n ==> rows[..n][i] == rows[i];
      }
    }
  }

  // ---------------------------------------------------------------- replaying

  /** Every row of xs has a full key that also occurs in ys. */
  ghost predicate Covers(ys: seq<Row>, xs: seq<Row>) {
    forall i :: 0 <= i < |xs| ==> HasFullKey(xs[i]) && LastWith(ys, KeyOf(xs[i])).Some?
  }

  /** Replay is absorbed: a transaction makes no difference to any table on which another one
      follows exactly if every row that it stores has a full key that the other one stores again. */
  lemma ReplayIsAbsorbedIff(first: seq<Row>, second: seq<Row>)
    ensures (forall t: Table :: Transact(Transact(t, first), second) == Transact(t, second))
       <==> Covers(Stored(second), Stored(first))
  {
    var xs, ys := Stored(first), Stored(second);
    RowsAreAbsorbedIff(xs, ys);
    if Covers(ys, xs) {
      forall t: Table
        ensures Transact(Transact(t, first), second) == Transact(t, second)
      {
        assert Apply(Apply(t, xs), ys) == Apply(t, ys);
      }
    } else {
      var t :| Apply(Apply(t, xs), ys) != Apply(t, ys);
      assert Transact(Transact(t, first), second) != Transact(t, second);
    }
  }

  /** The same for rows that are applied one after the other. */
  lemma RowsAreAbsorbedIff(xs: seq<Row>, ys: seq<Row>)
    ensures (forall t: Table :: Apply(Apply(t, xs), ys) == Apply(t, ys)) <==> Covers(ys, xs)
  {
    if Covers(ys, xs) {
      forall t: Table
        ensures Apply(Apply(t, xs), ys) == Apply(t, ys)
      {
        CoveredReplayIsAbsorbed(t, xs, ys);
      }
    } else {
      UncoveredReplayShows(xs, ys);
      assert Apply(Apply(Table(map[], multiset{}), xs), ys) != Apply(Table(map[], multiset{}), ys);
    }
  }

  lemma CoveredReplayIsAbsorbed(t: Table, xs: seq<Row>, ys: seq<Row>)
    requires Covers(ys, xs)
    ensures Apply(Apply(t, xs), ys) == Apply(t, ys)
  {
    FullKeysAddNothingLoose(xs);
    forall k
      ensures Lookup(Apply(Apply(t, xs), ys), k) == Lookup(Apply(t, ys), k)
      ensures Apply(Apply(t, xs), ys).loose == Apply(t, ys).loose
    {
      ApplyKeyByKey(Apply(t, xs), ys, k);
      ApplyKeyByKey(t, xs, k);
      ApplyKeyByKey(t, ys, k);
      LastWithFinds(xs, k);
    }
    ApplyKeyByKey(Apply(t, xs), ys, []);
    ApplyKeyByKey(t, xs, []);
    ApplyKeyByKey(t, ys, []);
    SameLookupsSameTable(Apply(Apply(t, xs), ys), Apply(t, ys));
  }

  lemma UncoveredReplayShows(xs: seq<Row>, ys: seq<Row>)
    requires !Covers(ys, xs)
    ensures var empty := Table(map[], multiset{});
      Apply(Apply(empty, xs), ys) != Apply(empty, ys)
  {
    var empty := Table(map[], multiset{});
    var i :| 0 <= i < |xs| && !(HasFullKey(xs[i]) && LastWith(ys, KeyOf(xs[i])).Some?);
    var k := KeyOf(xs[i]);
    ApplyKeyByKey(Apply(empty, xs), ys, k);
    ApplyKeyByKey(empty, xs, k);
    ApplyKeyByKey(empty, ys, k);
    if HasFullKey(xs[i]) {
      LastWithFinds(xs, k);
      assert Lookup(Apply(Apply(empty, xs), ys), k).Some?;
      assert Lookup(Apply(empty, ys), k).None?;
    } else {
      FullKeysAddNothingLoose(xs);
      assert |LooseRows(xs)| > 0;
      assert |Apply(Apply(empty, xs), ys).loose| == |LooseRows(xs)| + |LooseRows(ys)|;
    }
  }

  lemma {:induction false} KeysOccur(xs: seq<Row>)
    requires AllFullKeys(xs)
    ensures Covers(xs, xs)
  {
    forall i | 0 <= i < |xs|
      ensures HasFullKey(xs[i]) && LastWith(xs, KeyOf(xs[i])).Some?
    {
      LastWithFinds(xs, KeyOf(xs[i]));
    }
  }

  /** Sending a batch twice is like sending it once exactly if every row of it has a full key. */
  lemma SendingTwiceIsOnceIff(t: Table, batch: seq<Row>)
    ensures Apply(Apply(t, batch), batch) == Apply(t, batch) <==> AllFullKeys(batch)
  {
    if AllFullKeys(batch) {
      KeysOccur(batch);
      CoveredReplayIsAbsorbed(t, batch, batch);
    } else {
      FullKeysAddNothingLoose(batch);
      ApplyKeyByKey(Apply(t, batch), batch, []);
      ApplyKeyByKey(t, batch, []);
      assert |LooseRows(batch)| > 0;
      assert |Apply(Apply(t, batch), batch).loose| == |Apply(t, batch).loose| + |LooseRows(batch)|;
    }
  }

  /** A second pass over the log, which may have grown since the first, leaves the table a single
      clean pass would have left exactly if every row of the first pass has a full key. */
  lemma ReplayFromTheBeginningIff(t: Table, before: seq<Row>, added: seq<Row>)
    ensures Apply(Apply(t, before), before + added) == Apply(t, before + added) <==> AllFullKeys(before)
  {
    var all := before + added;
    if AllFullKeys(before) {
      forall i | 0 <= i < |before|
        ensures HasFullKey(before[i]) && LastWith(all, KeyOf(before[i])).Some?
      {
        LastWithFinds(all, KeyOf(before[i]));
        assert all[i] == before[i];
      }
      CoveredReplayIsAbsorbed(t, before, all);
    } else {
      FullKeysAddNothingLoose(before);
      ApplyKeyByKey(Apply(t, before), all, []);
      ApplyKeyByKey(t, before, []);
      ApplyKeyByKey(t, all, []);
      assert |LooseRows(before)| > 0;
      assert |Apply(Apply(t, before), all).loose| == |Apply(t, all).loose| + |LooseRows(before)|;
    }
  }

  // ---------------------------------------------------------------- order

  /** No two different rows have the same full key. */
  ghost predicate KeysTellRowsApart(rows: seq<Row>) {
    forall i, j :: 0 <= i < |rows| && 0 <= j < |rows| && KeyOf(rows[i]) == KeyOf(rows[j]) && HasFullKey(rows[i])
      ==> rows[i] == rows[j]
  }

  lemma {:induction false} LooseRowsAreCounted(rows: seq<Row>, r: Row)
    ensures LooseRows(rows)[r] == if HasFullKey(r) then 0 else multiset(rows)[r]
    decreases |rows|
  {
    if rows != [] {
      var n := |rows| - 1;
      LooseRowsAreCounted(rows[..n], r);
      assert rows == rows[..n] + [rows[n]];
    }
  }

  /** The same rows in another order leave the same table if for every full key the last one is the
      same. */
  lemma SameLastSameTable(t: Table, xs: seq<Row>, ys: seq<Row>)
    requires multiset(xs) == multiset(ys)
    requires forall k: Key :: Null !in k ==> LastWith(xs, k) == LastWith(ys, k)
    ensures Apply(t, xs) == Apply(t, ys)
  {
    forall k
      ensures Lookup(Apply(t, xs), k) == Lookup(Apply(t, ys), k)
    {
      ApplyKeyByKey(t, xs, k);
      ApplyKeyByKey(t, ys, k);
    }
    ApplyKeyByKey(t, xs, []);
    ApplyKeyByKey(t, ys, []);
    forall r
      ensures LooseRows(xs)[r] == LooseRows(ys)[r]
    {
      LooseRowsAreCounted(xs, r);
      LooseRowsAreCounted(ys, r);
    }
    assert LooseRows(xs) == LooseRows(ys);
    SameLookupsSameTable(Apply(t, xs), Apply(t, ys));
  }

  lemma OrderDoesNotMatter(t: Table, xs: seq<Row>, ys: seq<Row>)
    requires multiset(xs) == multiset(ys) && KeysTellRowsApart(xs)
    ensures Apply(t, xs) == Apply(t, ys)
  {
    SameMembers(xs, ys);
    forall k: Key | Null !in k
      ensures LastWith(xs, k) == LastWith(ys, k)
    {
      LastWithFinds(xs, k);
      LastWithFinds(ys, k);
    }
    SameLastSameTable(t, xs, ys);
  }

  lemma SameMembers(xs: seq<Row>, ys: seq<Row>)
    requires multiset(xs) == multiset(ys)
    ensures forall r :: r in xs <==> r in ys
  {
    forall r
      ensures r in xs <==> r in ys
    {
      assert r in xs <==> r in multiset(xs);
      assert r in ys <==> r in multiset(ys);
    }
  }

  function Without<T>(s: seq<T>, i: nat): seq<T>
    requires i < |s|
  {
    s[..i] + s[i + 1..]
  }

  lemma TakeOut<T>(s: seq<T>, i: nat)
    requires i < |s|
    ensures multiset(s) == multiset(Without(s, i)) + multiset{s[i]}
  {
    assert s == s[..i] + ([s[i]] + s[i + 1..]);
  }

  /** Two rows that share a key: the order in which they arrive last decides. */
  lemma OrderMatters(t: Table, xs: seq<Row>, i: nat, j: nat) returns (ys: seq<Row>)
    requires i < j < |xs| && HasFullKey(xs[i]) && KeyOf(xs[i]) == KeyOf(xs[j]) && xs[i] != xs[j]
    ensures multiset(ys) == multiset(xs) && Apply(t, ys) != Apply(t, xs)
  {
    var rest := Without(Without(xs, j), i);
    TakeOut(xs, j);
    TakeOut(Without(xs, j), i);
    var a, b := rest + [xs[i]] + [xs[j]], rest + [xs[j]] + [xs[i]];
    var k := KeyOf(xs[i]);
    assert a[..|a| - 1] == rest + [xs[i]] && b[..|b| - 1] == rest + [xs[j]];
    assert Lookup(Apply(t, a), k) == Some(xs[j]) && Lookup(Apply(t, b), k) == Some(xs[i]);
    ys := if Apply(t, a) == Apply(t, xs) then b else a;
  }

  /** Every order of the same rows leaves the same table exactly if no two different rows share a
      key. */
  lemma OrderDoesNotMatterIff(t: Table, xs: seq<Row>)
    ensures (forall ys :: multiset(ys) == multiset(xs) ==> Apply(t, ys) == Apply(t, xs))
       <==> KeysTellRowsApart(xs)
  {
    if KeysTellRowsApart(xs) {
      forall ys | multiset(ys) == multiset(xs)
        ensures Apply(t, ys) == Apply(t, xs)
      {
        OrderDoesNotMatter(t, xs, ys);
      }
    } else {
      var i, j :| 0 <= i < |xs| && 0 <= j < |xs| && KeyOf(xs[i]) == KeyOf(xs[j]) && HasFullKey(xs[i]) && xs[i] != xs[j];
      var ys;
      if i < j {
        ys := OrderMatters(t, xs, i, j);
      } else {
        ys := OrderMatters(t, xs, j, i);
      }
    }
  }
}
