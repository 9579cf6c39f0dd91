/** The SQL text of the MySQL writer (NewRecordWriter and buildStmt in
    reader_modules/mod_log_mysql/record_writer.go) and its arguments (writeBatch). */
module Statement {
  import opened Sequences
  import opened DetailTable
  import opened SqlText
  import FieldMapper

  function Repeat(s: string, n: nat): string {
    if n == 0 then "" else s + Repeat(s, n - 1)
  }

  function TrimSuffix(s: string, suffix: string): string {
    if |suffix| <= |s| && s[|s| - |suffix|..] == suffix then s[..|s| - |suffix|] else s
  }

  /** The number of placeholders in a text. */
  function Marks(s: string): nat {
    if s == [] then 0 else (if s[0] == '?' then 1 else 0) + Marks(s[1..])
  }

  lemma {:induction false} MarksAppend(a: string, b: string)
    ensures Marks(a + b) == Marks(a) + Marks(b)
  {
    if a == [] {
      assert a + b == b;
    } else {
      assert (a + b)[1..] == a[1..] + b;
      MarksAppend(a[1..], b);
    }
  }

  predicate Plain(s: string) {
    '?' !in s
  }

  lemma {:induction false} PlainHasNoMarks(s: string)
    requires Plain(s)
    ensures Marks(s) == 0
  {
    if s != [] {
      PlainHasNoMarks(s[1..]);
    }
  }

  /** The three parts of the statement, prepared once. */
  datatype Parts = Parts(head: string, row: string, tail: string)

  function Assignment(col: string): string {
    col + "=VALUES(" + col + ")"
  }

  function Assignments(cols: seq<string>): (r: seq<string>)
    ensures |r| == |cols| && forall i :: 0 <= i < |cols| ==> r[i] == Assignment(cols[i])
  {
    seq(|cols|, i requires 0 <= i < |cols| => Assignment(cols[i]))
  }

  predicate IsPrepared(p: Parts, table: string, cols: seq<string>) {
    && p.head == "INSERT INTO " + table + " (" + Join(cols, ",") + ") VALUES "
    && p.row == "(" + TrimSuffix(Repeat("?,", |cols|), ",") + ")"
    && p.tail == " ON DUPLICATE KEY UPDATE " + Join(Assignments(cols), ",")
  }

  lemma ClauseGrows(head: string, parts: seq<string>, i: nat)
    requires i < |parts|
    ensures head + Join(parts[..i + 1], ",")
         == (if i > 0 then head + Join(parts[..i], ",") + "," else head + Join(parts[..i], ",")) + parts[i]
  {
    JoinSnoc(parts[..i], parts[i], ",");
    assert parts[..i + 1] == parts[..i] + [parts[i]];
    var j := Join(parts[..i], ",");
    assert head + (j + "," + parts[i]) == head + j + "," + parts[i];
  }

  /** The loop over the columns that builds the update clause. */
  method UpdateClause(cols: seq<string>) returns (sb: string)
    ensures sb == " ON DUPLICATE KEY UPDATE " + Join(Assignments(cols), ",")
  {
    sb := " ON DUPLICATE KEY UPDATE ";
    ghost var parts := Assignments(cols);
    for i := 0 to |cols|
      invariant sb == " ON DUPLICATE KEY UPDATE " + Join(parts[..i], ",")
    {
      ClauseGrows(" ON DUPLICATE KEY UPDATE ", parts, i);
      if i > 0 {
        sb := sb + ",";
      }
      sb := sb + (cols[i] + "=VALUES(" + cols[i] + ")");
    }
    assert parts[..|cols|] == parts;
  }

  /** NewRecordWriter: head, one row of placeholders, and the update clause over all columns. */
  method Prepare(table: string, cols: seq<string>) returns (p: Parts)
    ensures IsPrepared(p, table, cols)
  {
    var sb := UpdateClause(cols);
    p := Parts("INSERT INTO " + table + " (" + Join(cols, ",") + ") VALUES ",
               "(" + TrimSuffix(Repeat("?,", |cols|), ",") + ")", sb);
  }

  lemma {:induction false} JoinSnoc(parts: seq<string>, x: string, sep: string)
    ensures Join(parts + [x], sep) == if parts == [] then x else Join(parts, sep) + sep + x
    decreases |parts|
  {
    if |parts| == 1 {
      assert (parts + [x])[1..] == [x];
    } else if |parts| > 1 {
      JoinSnoc(parts[1..], x, sep);
      assert (parts + [x])[1..] == parts[1..] + [x];
      var a, b := parts[0] + sep, Join(parts[1..], sep);
      assert a + (b + sep + x) == a + b + sep + x;
    }
  }

  function StatementFor(p: Parts, n: nat): string {
    p.head + Join(seq(n, _ => p.row), ",") + p.tail
  }

  /** buildStmt: n rows of placeholders between head and tail. */
  method BuildStmt(p: Parts, n: nat) returns (stmt: string)
    ensures stmt == StatementFor(p, n)
  {
    var sb := p.head;
    ghost var rows := seq(n, _ => p.row);
    for i := 0 to n
      invariant sb == p.head + Join(rows[..i], ",")
    {
      JoinSnoc(rows[..i], rows[i], ",");
      assert rows[..i + 1] == rows[..i] + [rows[i]];
      if i > 0 {
        sb := sb + ",";
      }
      sb := sb + p.row;
    }
    assert rows[..n] == rows;
    stmt := sb + p.tail;
  }

  /** writeBatch: the values of the rows, one row after the other. */
  method Arguments(batch: seq<Row>) returns (args: seq<Cell>)
    ensures args == Flatten(batch)
  {
    args := [];
    for i := 0 to |batch|
      invariant args == Flatten(batch[..i])
    {
      FlattenSnoc(batch[..i], batch[i]);
      assert batch[..i + 1] == batch[..i] + [batch[i]];
      args := args + batch[i];
    }
    assert batch[..|batch|] == batch;
  }

  // ---------------------------------------------------------------- placeholders and arguments

  lemma {:induction false} JoinedMarks(parts: seq<string>, sep: string, each: nat)
    requires Plain(sep)
    requires forall i :: 0 <= i < |parts| ==> Marks(parts[i]) == each
    ensures Marks(Join(parts, sep)) == |parts| * each
  {
    if |parts| <= 1 {
    } else {
      var rest := parts[1..];
      JoinedMarks(rest, sep, each);
      PlainHasNoMarks(sep);
      MarksAppend(parts[0] + sep, Join(rest, sep));
      MarksAppend(parts[0], sep);
      OneMore(|rest|, each);
    }
  }

  lemma {:induction false} RepeatedMarks(n: nat)
    ensures Marks(Repeat("?,", n)) == n && |Repeat("?,", n)| == 2 * n
    ensures n > 0 ==> Repeat("?,", n)[2 * n - 1] == ','
  {
    if n > 0 {
      RepeatedMarks(n - 1);
      MarksAppend("?,", Repeat("?,", n - 1));
      assert Marks("?,") == 1 by { assert "?,"[1..] == "," && ","[1..] == ""; }
    }
  }

  lemma RowMarks(n: nat)
    ensures Marks("(" + TrimSuffix(Repeat("?,", n), ",") + ")") == n
  {
    var r := Repeat("?,", n);
    var trimmed := TrimSuffix(r, ",");
    RepeatedMarks(n);
    Enclosed("(", trimmed, ")");
    if n > 0 {
      assert r[|r| - 1..] == ",";
      assert r == trimmed + ",";
      PlainHasNoMarks(",");
      MarksAppend(trimmed, ",");
    }
  }

  lemma Enclosed(left: string, s: string, right: string)
    requires Plain(left) && Plain(right)
    ensures Marks(left + s + right) == Marks(s)
  {
    PlainHasNoMarks(left);
    PlainHasNoMarks(right);
    MarksAppend(left + s, right);
    MarksAppend(left, s);
  }

  lemma PlainJoin(parts: seq<string>)
    requires forall i :: 0 <= i < |parts| ==> Plain(parts[i])
    ensures Marks(Join(parts, ",")) == 0
  {
    forall i | 0 <= i < |parts| ensures Marks(parts[i]) == 0 {
      PlainHasNoMarks(parts[i]);
    }
    JoinedMarks(parts, ",", 0);
  }

  lemma HeadHasNoMarks(p: Parts, table: string, cols: seq<string>)
    requires IsPrepared(p, table, cols)
    requires Plain(table) && forall i :: 0 <= i < |cols| ==> Plain(cols[i])
    ensures Marks(p.head) == 0
  {
    PlainJoin(cols);
    Enclosed("INSERT INTO " + table + " (", Join(cols, ","), ") VALUES ");
  }

  lemma TailHasNoMarks(p: Parts, table: string, cols: seq<string>)
    requires IsPrepared(p, table, cols)
    requires forall i :: 0 <= i < |cols| ==> Plain(cols[i])
    ensures Marks(p.tail) == 0
  {
    var k := |p.tail| - |Join(Assignments(cols), ",")|;
    assert Plain(p.tail[..k]);
    PlainHasNoMarks(p.tail[..k]);
    ClauseHasNoMarks(p.tail[..k], cols);
    assert p.tail == p.tail[..k] + Join(Assignments(cols), ",");
  }

  lemma ClauseHasNoMarks(head: string, cols: seq<string>)
    requires Marks(head) == 0 && forall i :: 0 <= i < |cols| ==> Plain(cols[i])
    ensures Marks(head + Join(Assignments(cols), ",")) == 0
  {
    var parts := Assignments(cols);
    forall i | 0 <= i < |parts| ensures Plain(parts[i]) {
      AssignmentIsPlain(cols[i]);
    }
    PlainJoin(parts);
    MarksAppend(head, Join(parts, ","));
  }

  lemma AssignmentIsPlain(col: string)
    requires Plain(col)
    ensures Plain(Assignment(col))
  {
  }

  /** If the table and column names hold no question mark, the statement for n rows has one
      placeholder for every column of every row. */
  lemma StatementMarks(p: Parts, table: string, cols: seq<string>, n: nat)
    requires IsPrepared(p, table, cols)
    requires Plain(table) && forall i :: 0 <= i < |cols| ==> Plain(cols[i])
    ensures Marks(StatementFor(p, n)) == n * |cols|
  {
    var rows := seq(n, _ => p.row);
    RowMarks(|cols|);
    JoinedMarks(rows, ",", |cols|);
    HeadHasNoMarks(p, table, cols);
    TailHasNoMarks(p, table, cols);
    MarksAppend(p.head + Join(rows, ","), p.tail);
    MarksAppend(p.head, Join(rows, ","));
  }

  /** The rows that the database reads from the arguments: one row of cells after the other. */
  function Received(args: seq<Cell>, width: nat): seq<Row>
    requires width > 0
    decreases |args|
  {
    if |args| < width then [] else [args[..width]] + Received(args[width..], width)
  }

  /** Laying the rows end to end and cutting them apart again gives the rows. */
  lemma {:induction false} ReceivedAsSent(batch: seq<Row>, width: nat)
    requires width > 0 && forall i :: 0 <= i < |batch| ==> |batch[i]| == width
    ensures Received(Flatten(batch), width) == batch
    decreases |batch|
  {
    if batch != [] {
      ReceivedAsSent(batch[1..], width);
      var args := Flatten(batch);
      assert args[..width] == batch[0] && args[width..] == Flatten(batch[1..]);
    }
  }

  // ---------------------------------------------------------------- what the database reads

  lemma {:induction false} RepeatedIsJoined(n: nat)
    requires n > 0
    ensures Repeat("?,", n) == Join(seq(n, _ => "?"), ",") + ","
  {
    if n == 1 {
      assert Repeat("?,", 0) == "";
      assert Join(seq(1, _ => "?"), ",") == "?";
    } else {
      RepeatedIsJoined(n - 1);
      assert seq(n, _ => "?")[1..] == seq(n - 1, _ => "?");
      var j := Join(seq(n - 1, _ => "?"), ",");
      assert "?," + (j + ",") == "?" + "," + j + ",";
    }
  }

  lemma RowIsMarked(p: Parts, table: string, cols: seq<string>)
    requires IsPrepared(p, table, cols) && cols != []
    ensures p.row == Marked(|cols|)
  {
    var j := Join(seq(|cols|, _ => "?"), ",");
    RepeatedIsJoined(|cols|);
    assert (j + ",")[|j + ","| - 1..] == ",";
    assert (j + ",")[..|j|] == j;
  }

  /** The columns and the table have names that need no quotes. */
  predicate WellNamed(table: string, cols: seq<string>) {
    cols != [] && IsName(table) && forall i :: 0 <= i < |cols| ==> IsName(cols[i])
  }

  lemma NoCommaInAssignment(col: string)
    requires IsName(col)
    ensures ',' !in Assignment(col) && ReadSet(Assignment(col)) == Some((col, col))
  {
    SetReads(col);
  }

  lemma ClauseReads(cols: seq<string>)
    requires cols != [] && forall i :: 0 <= i < |cols| ==> IsName(cols[i])
    ensures ReadTail("ON DUPLICATE KEY UPDATE " + Join(Assignments(cols), ",")) == Some(Each(cols))
  {
    var parts := Assignments(cols);
    forall i | 0 <= i < |parts|
      ensures ',' !in parts[i] && ReadSet(parts[i]) == Some((cols[i], cols[i]))
    {
      NoCommaInAssignment(cols[i]);
    }
    StripFirst("ON DUPLICATE KEY UPDATE ", Join(parts, ","));
    PiecesOfJoin(parts, ',');
    SetsRead(parts, cols);
  }

  /** The statement for n rows, read back: it inserts into the table, names its columns in order,
      has n rows of one placeholder for each, and sets every column to its own new value. */
  lemma StatementReads(p: Parts, table: string, cols: seq<string>, n: nat)
    requires IsPrepared(p, table, cols) && WellNamed(table, cols) && n > 0
    ensures ReadInsert(StatementFor(p, n)) == Some(Insert(table, cols, seq(n, _ => |cols|), Each(cols)))
  {
    var rows := seq(n, _ => p.row);
    var clause := "ON DUPLICATE KEY UPDATE " + Join(Assignments(cols), ",");
    RowIsMarked(p, table, cols);
    TailIsClause(p, table, cols);
    ValuesRead(rows, |cols|);
    ClauseReads(cols);
    HeadReads(table, cols, Join(rows, ",") + [' '] + clause);
    InsertReads(p.head, table, cols, Join(rows, ","), seq(n, _ => |cols|), clause, Each(cols));
    TailGoesLast(p.head, Join(rows, ","), clause);
  }

  lemma TailGoesLast(head: string, values: string, clause: string)
    ensures head + values + ([' '] + clause) == head + (values + [' '] + clause)
  {
  }

  lemma ValuesRead(rows: seq<string>, width: nat)
    requires rows != [] && width > 0 && forall i :: 0 <= i < |rows| ==> rows[i] == Marked(width)
    ensures ' ' !in Join(rows, ",") && ReadGroups(Join(rows, ",")) == Some(seq(|rows|, _ => width))
  {
    NotInJoin(seq(width, _ => "?"), ",", ' ');
    NotInJoin(rows, ",", ' ');
    GroupsRead(rows, width);
  }

  lemma InsertReads(head: string, table: string, cols: seq<string>, values: string, groups: seq<nat>, clause: string,
                    sets: seq<(string, string)>)
    requires ReadHead(head + (values + [' '] + clause)) == Some((table, cols, values + [' '] + clause))
    requires ' ' !in values && ReadGroups(values) == Some(groups) && ReadTail(clause) == Some(sets)
    ensures ReadInsert(head + (values + [' '] + clause)) == Some(Insert(table, cols, groups, sets))
  {
    CutAtFirst(values, ' ', clause);
  }

  lemma BlankComesFirst(s: string)
    ensures " ON DUPLICATE KEY UPDATE " + s == [' '] + ("ON DUPLICATE KEY UPDATE " + s)
  {
    assert " ON DUPLICATE KEY UPDATE " == [' '] + "ON DUPLICATE KEY UPDATE ";
  }

  lemma TailIsClause(p: Parts, table: string, cols: seq<string>)
    requires IsPrepared(p, table, cols)
    ensures p.tail == [' '] + ("ON DUPLICATE KEY UPDATE " + Join(Assignments(cols), ","))
  {
    BlankComesFirst(Join(Assignments(cols), ","));
  }

  /** The cell that a row of cells has for a column. */
  function CellOf(cols: seq<string>, cells: Row, col: string): Cell
    requires |cols| == |cells|
  {
    if cols == [] then Null else if cols[0] == col then cells[0] else CellOf(cols[1..], cells[1..], col)
  }

  /** The cells of a row, in the order of the columns of the table; NULL where it has none. */
  function InOrder(schema: seq<string>, cols: seq<string>, cells: Row): Row
    requires |cols| == |cells|
  {
    seq(|schema|, j requires 0 <= j < |schema| => CellOf(cols, cells, schema[j]))
  }

  /** Which column's new value a column is set to, if it is set at all. */
  function SourceOf(sets: seq<(string, string)>, col: string): Option<string> {
    if sets == [] then None
    else if SourceOf(sets[1..], col).Some? then SourceOf(sets[1..], col)
    else if sets[0].0 == col then Some(sets[0].1)
    else None
  }

  /** The row that is there already, with the columns that the statement sets overwritten. */
  function Overwritten(schema: seq<string>, sets: seq<(string, string)>, was: Row, row: Row): Row
    requires |schema| == |row|
  {
    seq(|schema|, j requires 0 <= j < |schema| =>
      match SourceOf(sets, schema[j])
      case Some(source) => CellOf(schema, row, source)
      case None => if j < |was| then was[j] else Null)
  }

  function InsertOne(t: Table, schema: seq<string>, sets: seq<(string, string)>, row: Row): Table
    requires |schema| == |row|
  {
    if HasFullKey(row) && KeyOf(row) in t.keyed then
      var k := KeyOf(row);
      Upsert(t.(keyed := t.keyed - {k}), Overwritten(schema, sets, t.keyed[k], row))
    else Upsert(t, row)
  }

  function InsertAll(t: Table, schema: seq<string>, sets: seq<(string, string)>, rows: seq<Row>): Table
    requires forall i :: 0 <= i < |rows| ==> |rows[i]| == |schema|
    decreases |rows|
  {
    if rows == [] then t
    else
      var n := |rows| - 1;
      InsertOne(InsertAll(t, schema, sets, rows[..n]), schema, sets, rows[n])
  }

  predicate KnowsAll(schema: seq<string>, sets: seq<(string, string)>) {
    forall i :: 0 <= i < |sets| ==> sets[i].0 in schema && sets[i].1 in schema
  }

  /** A statement that can be executed on a table: it is an insert into this table, names columns
      that the table has, and has for each row as many placeholders as columns. */
  predicate Executable(ins: Insert, table: string, schema: seq<string>, args: seq<Cell>) {
    && ins.table == table && ins.cols != []
    && (forall i :: 0 <= i < |ins.cols| ==> ins.cols[i] in schema) && KnowsAll(schema, ins.sets)
    && (forall i :: 0 <= i < |ins.groups| ==> ins.groups[i] == |ins.cols|)
    && |args| == Total(ins.groups)
  }

  /** The number of placeholders. */
  function Total(groups: seq<nat>): nat {
    if groups == [] then 0 else groups[0] + Total(groups[1..])
  }

  lemma {:induction false} OneForEach(batch: seq<Row>, groups: seq<nat>)
    requires |groups| == |batch| && forall i :: 0 <= i < |batch| ==> |batch[i]| == groups[i]
    ensures |Flatten(batch)| == Total(groups)
    decreases |batch|
  {
    if batch != [] {
      OneForEach(batch[1..], groups[1..]);
    }
  }

  lemma {:induction false} ReceivedAreWide(args: seq<Cell>, width: nat)
    requires width > 0
    ensures forall i :: 0 <= i < |Received(args, width)| ==> |Received(args, width)[i]| == width
    decreases |args|
  {
    if |args| >= width {
      ReceivedAreWide(args[width..], width);
    }
  }

  /** The rows that arrive, in the order of the columns of the table. */
  function Arriving(schema: seq<string>, cols: seq<string>, args: seq<Cell>): (rows: seq<Row>)
    requires cols != []
    ensures forall i :: 0 <= i < |rows| ==> |rows[i]| == |schema|
  {
    ReceivedAreWide(args, |cols|);
    var received := Received(args, |cols|);
    seq(|received|, i requires 0 <= i < |received| => InOrder(schema, cols, received[i]))
  }

  /** What the database makes of a statement with arguments: nothing if it does not understand it,
      if there is not one argument for every placeholder, or if a row cannot be stored; otherwise
      the rows are inserted, or written over those with the same key, as the statement says. */
  function Execute(t: Table, table: string, schema: seq<string>, stmt: string, args: seq<Cell>): Option<Table> {
    match ReadInsert(stmt)
    case None => None
    case Some(ins) => if Executable(ins, table, schema, args) then ExecuteInsert(t, schema, ins, args) else None
  }

  function ExecuteInsert(t: Table, schema: seq<string>, ins: Insert, args: seq<Cell>): Option<Table>
    requires ins.cols != []
  {
    var rows := Arriving(schema, ins.cols, args);
    if AllStorable(rows) then Some(InsertAll(t, schema, ins.sets, rows)) else None
  }

  // ---------------------------------------------------------------- the batch arrives

  predicate Distinct(cols: seq<string>) {
    forall i, j :: 0 <= i < j < |cols| ==> cols[i] != cols[j]
  }

  lemma {:induction false} CellAtColumn(cols: seq<string>, cells: Row, j: nat)
    requires |cols| == |cells| && Distinct(cols) && j < |cols|
    ensures CellOf(cols, cells, cols[j]) == cells[j]
    decreases |cols|
  {
    if j > 0 {
      CellAtColumn(cols[1..], cells[1..], j - 1);
    }
  }

  lemma {:induction false} EachIsItsOwnSource(cols: seq<string>, col: string)
    requires col in cols
    ensures SourceOf(Each(cols), col) == Some(col)
  {
    if col in cols[1..] {
      EachIsItsOwnSource(cols[1..], col);
    } else {
      NoSource(cols[1..], col);
    }
  }

  lemma {:induction false} NoSource(cols: seq<string>, col: string)
    requires col !in cols
    ensures SourceOf(Each(cols), col) == None
  {
    if cols != [] {
      NoSource(cols[1..], col);
    }
  }

  lemma {:induction false} EachIsKnown(cols: seq<string>)
    ensures |Each(cols)| == |cols|
    ensures forall i :: 0 <= i < |cols| ==> Each(cols)[i] == (cols[i], cols[i])
  {
    if cols != [] {
      EachIsKnown(cols[1..]);
    }
  }

  lemma RowStaysAsItIs(cols: seq<string>, row: Row)
    requires Distinct(cols) && |row| == |cols|
    ensures InOrder(cols, cols, row) == row
  {
    forall j | 0 <= j < |cols|
      ensures CellOf(cols, row, cols[j]) == row[j]
    {
      CellAtColumn(cols, row, j);
    }
  }

  lemma EverythingIsOverwritten(cols: seq<string>, was: Row, row: Row)
    requires Distinct(cols) && |row| == |cols|
    ensures Overwritten(cols, Each(cols), was, row) == row
  {
    forall j | 0 <= j < |cols|
      ensures Overwritten(cols, Each(cols), was, row)[j] == row[j]
    {
      CellAtColumn(cols, row, j);
      EachIsItsOwnSource(cols, cols[j]);
    }
  }

  lemma {:induction false} InsertedIsApplied(t: Table, cols: seq<string>, rows: seq<Row>)
    requires Distinct(cols) && forall i :: 0 <= i < |rows| ==> |rows[i]| == |cols|
    ensures InsertAll(t, cols, Each(cols), rows) == Apply(t, rows)
    decreases |rows|
  {
    if rows != [] {
      var n := |rows| - 1;
      InsertedIsApplied(t, cols, rows[..n]);
      var u, row := Apply(t, rows[..n]), rows[n];
      if HasFullKey(row) && KeyOf(row) in u.keyed {
        EverythingIsOverwritten(cols, u.keyed[KeyOf(row)], row);
        assert (u.keyed - {KeyOf(row)})[KeyOf(row) := row] == u.keyed[KeyOf(row) := row];
      }
    }
  }

  /** What writeBatch sends arrives: the statement for a batch with the cells of its rows as
      arguments upserts exactly these rows, every column of them, if they can be stored. */
  lemma BatchArrives(t: Table, p: Parts, table: string, cols: seq<string>, batch: seq<Row>)
    requires IsPrepared(p, table, cols) && WellNamed(table, cols) && Distinct(cols) && batch != []
    requires forall i :: 0 <= i < |batch| ==> |batch[i]| == |cols|
    ensures Execute(t, table, cols, StatementFor(p, |batch|), Flatten(batch))
         == if AllStorable(batch) then Some(Apply(t, batch)) else None
  {
    StatementReads(p, table, cols, |batch|);
    ReadIsExecuted(t, table, cols, StatementFor(p, |batch|), batch);
  }

  lemma ReadIsExecuted(t: Table, table: string, cols: seq<string>, stmt: string, batch: seq<Row>)
    requires cols != [] && Distinct(cols) && forall i :: 0 <= i < |batch| ==> |batch[i]| == |cols|
    requires ReadInsert(stmt) == Some(Insert(table, cols, seq(|batch|, _ => |cols|), Each(cols)))
    ensures Execute(t, table, cols, stmt, Flatten(batch)) == if AllStorable(batch) then Some(Apply(t, batch)) else None
  {
    var ins := Insert(table, cols, seq(|batch|, _ => |cols|), Each(cols));
    OneForEach(batch, ins.groups);
    KnowsEach(cols);
    IsExecutable(ins, table, cols, Flatten(batch));
    InsertArrives(t, cols, ins, batch);
  }

  lemma InsertArrives(t: Table, cols: seq<string>, ins: Insert, batch: seq<Row>)
    requires ins.cols == cols != [] && ins.sets == Each(cols)
    requires Distinct(cols) && forall i :: 0 <= i < |batch| ==> |batch[i]| == |cols|
    ensures ExecuteInsert(t, cols, ins, Flatten(batch)) == if AllStorable(batch) then Some(Apply(t, batch)) else None
  {
    RowsArrive(cols, batch);
    InsertedIsApplied(t, cols, batch);
  }

  lemma KnowsEach(cols: seq<string>)
    ensures KnowsAll(cols, Each(cols))
  {
    EachIsKnown(cols);
    forall i | 0 <= i < |cols|
      ensures Each(cols)[i].0 in cols && Each(cols)[i].1 in cols
    {
      assert cols[i] in cols;
    }
  }

  lemma IsExecutable(ins: Insert, table: string, cols: seq<string>, args: seq<Cell>)
    requires ins.table == table && ins.cols == cols != [] && KnowsAll(cols, ins.sets) && |args| == Total(ins.groups)
    requires forall i :: 0 <= i < |ins.groups| ==> ins.groups[i] == |cols|
    ensures Executable(ins, table, cols, args)
  {
  }

  lemma RowsArrive(cols: seq<string>, batch: seq<Row>)
    requires Distinct(cols) && cols != [] && forall i :: 0 <= i < |batch| ==> |batch[i]| == |cols|
    ensures Arriving(cols, cols, Flatten(batch)) == batch
  {
    ReceivedAsSent(batch, |cols|);
    forall i | 0 <= i < |batch|
      ensures InOrder(cols, cols, batch[i]) == batch[i]
    {
      RowStaysAsItIs(cols, batch[i]);
    }
  }

  /** One row per log entry, each built by ToRow. */
  predicate AreRowsOf(batch: seq<Row>, defs: seq<FieldMapper.ColumnDef>, logs: seq<FieldMapper.Log>,
                      marshal: FieldMapper.Value -> Option<string>) {
    && |batch| == |logs|
    && forall k :: 0 <= k < |batch| ==> FieldMapper.IsRowOf(batch[k], defs, logs[k], marshal)
  }

  /** Statement and arguments line up: for a batch of rows that ToRow built, writeBatch passes
      exactly as many arguments as its statement has placeholders. */
  lemma PlaceholdersMatchArguments(p: Parts, table: string, defs: seq<FieldMapper.ColumnDef>,
                                   logs: seq<FieldMapper.Log>, marshal: FieldMapper.Value -> Option<string>,
                                   batch: seq<Row>)
    requires IsPrepared(p, table, FieldMapper.Names(defs))
    requires Plain(table) && forall k :: 0 <= k < |defs| ==> Plain(defs[k].name)
    requires AreRowsOf(batch, defs, logs, marshal)
    ensures Marks(StatementFor(p, |batch|)) == |Flatten(batch)|
  {
    StatementMarks(p, table, FieldMapper.Names(defs), |batch|);
    RowsAreWide(batch, defs, logs, marshal);
    FlattenLength(batch, |defs|);
  }

  /** Argument i * |columns| + j is what log entry i holds for column j. */
  lemma ArgumentOfCell(defs: seq<FieldMapper.ColumnDef>, logs: seq<FieldMapper.Log>,
                       marshal: FieldMapper.Value -> Option<string>, batch: seq<Row>, i: nat, j: nat)
    requires AreRowsOf(batch, defs, logs, marshal)
    requires i < |batch| && j < |defs|
    ensures i * |defs| + j < |Flatten(batch)|
    ensures FieldMapper.CellFor(defs[j], logs[i], marshal) == Some(Flatten(batch)[i * |defs| + j])
  {
    RowsAreWide(batch, defs, logs, marshal);
    FlattenAt(batch, |defs|, i, j);
    assert FieldMapper.IsRowOf(batch[i], defs, logs[i], marshal);
  }

  lemma RowsAreWide(batch: seq<Row>, defs: seq<FieldMapper.ColumnDef>, logs: seq<FieldMapper.Log>,
                    marshal: FieldMapper.Value -> Option<string>)
    requires AreRowsOf(batch, defs, logs, marshal)
    ensures forall row :: row in batch ==> |row| == |defs|
  {
    forall k | 0 <= k < |batch| ensures |batch[k]| == |defs| {
      assert FieldMapper.IsRowOf(batch[k], defs, logs[k], marshal);
    }
  }
}
