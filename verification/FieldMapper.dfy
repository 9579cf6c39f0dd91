/** Row assembly: the ai_apikeytags extractor (reader_modules/mod_fields/field_registry.go) and
    flattenTag and ToRow (reader_modules/mod_log_mysql/field_mapper.go). The columns are a parameter;
    only the four key columns at the front of the table are fixed. Field extraction and JSON
    marshalling are arbitrary functions. */
module FieldMapper {
  import opened Sequences
  import opened DetailTable

  type Word64 = n: nat | n < 0x1_0000_0000_0000_0000

  /** A value of Go's empty interface, as far as ToRow looks at it. */
  datatype Value = Nil | Str(s: string) | Uint64(n: Word64) | Bool(b: bool) | Num(i: int) | Other(id: nat)

  datatype Tag = Tag(level: int, name: string, value: string)

  /** A log entry: what each registered field extracts to, with its isZero, and the API key tags
      if there is a request log. */
  datatype Log = Log(fields: string -> (Value, bool), tags: Option<seq<Tag>>)

  datatype Kind = Scalar | BoolTiny | Json | LogTime | TagName | TagValue
  datatype ColumnDef = ColumnDef(name: string, field: string, kind: Kind, level: int)

  /** The columns every row begins with. */
  const KEY_DEFS: seq<ColumnDef> := [
    ColumnDef("hostid", "hostid", Scalar, 0),
    ColumnDef("log_time", "", LogTime, 0),
    ColumnDef("ai_apikey_id", "ai_apikey_id", Scalar, 0),
    ColumnDef("ai_requested_model", "ai_requested_model", Scalar, 0)]

  // ---------------------------------------------------------------- tags

  /** What one level of the extracted object holds: the empty object, or a tag. */
  datatype Level = Unset | Tagged(name: string, value: string)

  /** The last tag of a level, if there is one. */
  function LastTag(tags: seq<Tag>, level: int): Option<Tag>
    decreases |tags|
  {
    if tags == [] then None
    else
      var n := |tags| - 1;
      if tags[n].level == level then Some(tags[n]) else LastTag(tags[..n], level)
  }

  ghost predicate IsLastAt(tags: seq<Tag>, level: int, i: nat) {
    i < |tags| && tags[i].level == level && forall j :: i < j < |tags| ==> tags[j].level != level
  }

  lemma {:induction false} LastTagIsLast(tags: seq<Tag>, level: int)
    ensures LastTag(tags, level).None? <==> forall i :: 0 <= i < |tags| ==> tags[i].level != level
    ensures LastTag(tags, level).Some? ==>
      exists i: nat :: IsLastAt(tags, level, i) && tags[i] == LastTag(tags, level).value
    decreases |tags|
  {
    if tags != [] {
      var n := |tags| - 1;
      if tags[n].level == level {
        assert IsLastAt(tags, level, n);
      } else {
        LastTagIsLast(tags[..n], level);
        assert forall i :: 0 <= i < n ==> tags[..n][i] == tags[i];
        if LastTag(tags[..n], level).Some? {
          var i: nat :| IsLastAt(tags[..n], level, i) && tags[..n][i] == LastTag(tags[..n], level).value;
          assert IsLastAt(tags, level, i);
        }
      }
    }
  }

  /** The extractor: five levels, the last tag of each wins, other levels are skipped. */
  method ExtractTags(log: Log) returns (result: map<int, Level>)
    ensures result.Keys == {1, 2, 3, 4, 5}
    ensures forall level :: 1 <= level <= 5 ==>
      result[level] == match log.tags
        case None => Unset
        case Some(tags) =>
          match LastTag(tags, level) case None => Unset case Some(tag) => Tagged(tag.name, tag.value)
  {
    result := map[1 := Unset, 2 := Unset, 3 := Unset, 4 := Unset, 5 := Unset];
    match log.tags
    case None =>
    case Some(tags) =>
      for i := 0 to |tags|
        invariant result.Keys == {1, 2, 3, 4, 5}
        invariant forall level :: 1 <= level <= 5 ==>
          result[level] == match LastTag(tags[..i], level)
            case None => Unset
            case Some(tag) => Tagged(tag.name, tag.value)
      {
        assert tags[..i + 1][..i] == tags[..i];
        if 1 <= tags[i].level <= 5 {
          result := result[tags[i].level := Tagged(tags[i].name, tags[i].value)];
        }
      }
      assert tags[..|tags|] == tags;
  }

  function TextOrNull(s: string): Cell {
    if s == "" then Null else Text(s)
  }

  /** Name and value cells of a level; NULL for what is missing or empty. */
  function FlattenTag(tags: map<int, Level>, level: int): (Cell, Cell) {
    if level !in tags then (Null, Null)
    else
      match tags[level]
      case Unset => (Null, Null)
      case Tagged(name, value) => (TextOrNull(name), TextOrNull(value))
  }

  /** The same, said about the tag list itself. */
  function TagCells(log: Log, level: int): (Cell, Cell) {
    if log.tags.None? || !(1 <= level <= 5) then (Null, Null)
    else
      match LastTag(log.tags.value, level)
      case None => (Null, Null)
      case Some(tag) => (TextOrNull(tag.name), TextOrNull(tag.value))
  }

  // ---------------------------------------------------------------- rows

  function Names(defs: seq<ColumnDef>): (r: seq<string>)
    ensures |r| == |defs| && forall j :: 0 <= j < |defs| ==> r[j] == defs[j].name
  {
    seq(|defs|, j requires 0 <= j < |defs| => defs[j].name)
  }

  /** Columns: the column names in writing order. */
  method Columns(defs: seq<ColumnDef>) returns (cols: seq<string>)
    ensures cols == Names(defs)
  {
    cols := [];
    for i := 0 to |defs|
      invariant |cols| == i && forall j :: 0 <= j < i ==> cols[j] == defs[j].name
    {
      cols := cols + [defs[i].name];
    }
  }

  /** int64(ts) of an unsigned 64-bit number. */
  function ToInt64(n: Word64): int {
    if n < 0x8000_0000_0000_0000 then n else n - 0x1_0000_0000_0000_0000
  }

  /** A value passed to the database as it is. */
  function Passed(v: Value): Cell {
    match v
    case Nil => Null
    case Str(s) => Text(s)
    case Uint64(n) => Number(n)
    case Bool(b) => Number(if b then 1 else 0)
    case Num(i) => Number(i)
    case Other(id) => Number(id)
  }

  /** What a column holds for a log entry, on its own; None if its value cannot be marshalled. */
  function CellFor(col: ColumnDef, log: Log, marshal: Value -> Option<string>): Option<Cell> {
    match col.kind
    case LogTime =>
      Some(match log.fields("timestamp").0 case Uint64(ts) => Time(ToInt64(ts)) case _ => Null)
    case BoolTiny => Some(Passed(log.fields(col.field).0))
    case Json =>
      var (v, isZero) := log.fields(col.field);
      if isZero || v.Nil? then Some(Null)
      else (match marshal(v) case None => None case Some(text) => Some(Text(text)))
    case TagName => Some(TagCells(log, col.level).0)
    case TagValue => Some(TagCells(log, col.level).1)
    case Scalar =>
      var (v, isZero) := log.fields(col.field);
      Some(if isZero && v.Str? then Null else Passed(v))
  }

  /** What a reader of the table can rely on: the cell shows the field of the log entry. */
  ghost predicate Shows(cell: Cell, col: ColumnDef, log: Log, marshal: Value -> Option<string>) {
    var (v, isZero) := log.fields(col.field);
    match col.kind
    case LogTime => ShowsTime(cell, log.fields("timestamp").0)
    case Scalar => ShowsValue(cell, v, isZero)
    case BoolTiny => ShowsValue(cell, v, false)
    case Json =>
      && (cell == Null <==> isZero || v == Nil)
      && (cell != Null ==> cell.Text? && marshal(v) == Some(cell.text))
    case _ => ShowsTag(cell, col, log.tags)
  }

  /** Text as it is, or NULL for none; numbers as they are; true and false as 1 and 0. */
  ghost predicate ShowsValue(cell: Cell, v: Value, isZero: bool) {
    && (v == Nil ==> cell == Null)
    && (v.Str? && !isZero ==> cell == Text(v.s)) && (v.Str? && isZero ==> cell == Null)
    && (v.Uint64? ==> cell == Number(v.n)) && (v.Num? ==> cell == Number(v.i))
    && (v == Bool(true) ==> cell == Number(1)) && (v == Bool(false) ==> cell == Number(0))
    && (v.Other? ==> cell == Number(v.id))
  }

  /** A timestamp below 2^63 comes out as that time; from there on it wraps around. */
  ghost predicate ShowsTime(cell: Cell, v: Value) {
    && (v.Uint64? && v.n < 0x8000_0000_0000_0000 ==> cell == Time(v.n))
    && (v.Uint64? && v.n >= 0x8000_0000_0000_0000 ==> cell.Time? && cell.seconds + 0x1_0000_0000_0000_0000 == v.n)
    && (!v.Uint64? ==> cell == Null)
  }

  /** Name or value of the last tag in the list that has the level of the column; NULL if there is
      none, or if it is empty. */
  ghost predicate ShowsTag(cell: Cell, col: ColumnDef, tags: Option<seq<Tag>>) {
    var known := tags.Some? && 1 <= col.level <= 5;
    && (forall i: nat :: known && IsLastAt(tags.value, col.level, i) ==>
          var text := if col.kind == TagName then tags.value[i].name else tags.value[i].value;
          cell == if text == "" then Null else Text(text))
    && ((known ==> forall i :: 0 <= i < |tags.value| ==> tags.value[i].level != col.level) ==> cell == Null)
  }

  predicate IsRowOf(row: Row, defs: seq<ColumnDef>, log: Log, marshal: Value -> Option<string>) {
    && |row| == |defs|
    && forall j :: 0 <= j < |defs| ==> CellFor(defs[j], log, marshal) == Some(row[j])
  }

  /** Every cell of a row shows its field. */
  ghost predicate RowShows(row: Row, defs: seq<ColumnDef>, log: Log, marshal: Value -> Option<string>) {
    |row| == |defs| && forall j :: 0 <= j < |defs| ==> Shows(row[j], defs[j], log, marshal)
  }

  /** There is a JSON column whose value is not empty and cannot be marshalled. */
  ghost predicate CannotMarshal(defs: seq<ColumnDef>, log: Log, marshal: Value -> Option<string>) {
    exists j :: 0 <= j < |defs| && defs[j].kind == Json && !log.fields(defs[j].field).1
      && log.fields(defs[j].field).0 != Nil && marshal(log.fields(defs[j].field).0) == None
  }

  lemma CellShows(cell: Cell, col: ColumnDef, log: Log, marshal: Value -> Option<string>)
    requires CellFor(col, log, marshal) == Some(cell)
    ensures Shows(cell, col, log, marshal)
  {
    if col.kind == TagName || col.kind == TagValue {
      if log.tags.Some? {
        OnlyOneIsLast(log.tags.value, col.level);
      }
    }
  }

  lemma OnlyOneIsLast(tags: seq<Tag>, level: int)
    ensures LastTag(tags, level).None? <==> forall i :: 0 <= i < |tags| ==> tags[i].level != level
    ensures forall i: nat :: IsLastAt(tags, level, i) ==> LastTag(tags, level) == Some(tags[i])
  {
    LastTagIsLast(tags, level);
    forall i: nat | IsLastAt(tags, level, i)
      ensures LastTag(tags, level) == Some(tags[i])
    {
      var k: nat :| IsLastAt(tags, level, k) && tags[k] == LastTag(tags, level).value;
      assert i == k;
    }
  }

  lemma RowsShow(row: Row, defs: seq<ColumnDef>, log: Log, marshal: Value -> Option<string>)
    requires IsRowOf(row, defs, log, marshal)
    ensures RowShows(row, defs, log, marshal)
  {
    forall j | 0 <= j < |defs|
      ensures Shows(row[j], defs[j], log, marshal)
    {
      CellShows(row[j], defs[j], log, marshal);
    }
  }

  /** ToRow: the columns one after the other; the tags are extracted when the first tag column
      needs them and kept for the others. Keeping them makes no difference: every cell is what
      its column holds on its own, and the row fails exactly if some column cannot be marshalled. */
  method ToRow(defs: seq<ColumnDef>, log: Log, marshal: Value -> Option<string>) returns (row: Option<Row>)
    ensures row.Some? ==> IsRowOf(row.value, defs, log, marshal) && RowShows(row.value, defs, log, marshal)
    ensures row.None? <==> CannotMarshal(defs, log, marshal)
  {
    row := Assemble(defs, log, marshal);
    if row.Some? {
      RowsShow(row.value, defs, log, marshal);
    }
  }

  method Assemble(defs: seq<ColumnDef>, log: Log, marshal: Value -> Option<string>) returns (row: Option<Row>)
    ensures row.Some? ==> IsRowOf(row.value, defs, log, marshal)
    ensures row.None? <==> CannotMarshal(defs, log, marshal)
  {
    var cells: Row := [];
    var tags: map<int, Level> := map[];
    var tagsExtracted := false;
    for i := 0 to |defs|
      invariant |cells| == i
      invariant forall j :: 0 <= j < i ==> CellFor(defs[j], log, marshal) == Some(cells[j])
      invariant tagsExtracted ==> forall level :: FlattenTag(tags, level) == TagCells(log, level)
    {
      var col := defs[i];
      match col.kind {
        case LogTime =>
          match log.fields("timestamp").0 {
            case Uint64(ts) => cells := cells + [Time(ToInt64(ts))];
            case _ => cells := cells + [Null];
          }
        case BoolTiny =>
          cells := cells + [Passed(log.fields(col.field).0)];
        case Json =>
          var (v, isZero) := log.fields(col.field);
          if isZero || v.Nil? {
            cells := cells + [Null];
          } else {
            match marshal(v) {
              case None => return None;
              case Some(text) => cells := cells + [Text(text)];
            }
          }
        case TagName =>
          if !tagsExtracted {
            tags := ExtractTags(log);
            tagsExtracted := true;
          }
          cells := cells + [FlattenTag(tags, col.level).0];
        case TagValue =>
          if !tagsExtracted {
            tags := ExtractTags(log);
            tagsExtracted := true;
          }
          cells := cells + [FlattenTag(tags, col.level).1];
        case Scalar =>
          var (v, isZero) := log.fields(col.field);
          if isZero && v.Str? {
            cells := cells + [Null];
          } else {
            cells := cells + [Passed(v)];
          }
      }
    }
    return Some(cells);
  }

  // ---------------------------------------------------------------- keys

  /** The string fields of the key as the registry extracts them. */
  predicate ExtractsString(log: Log, field: string) {
    log.fields(field).0.Str? && log.fields(field).1 == (log.fields(field).0.s == "")
  }

  /** The row of a log entry has a full key, and so is deduplicated, exactly if host id, API key
      and requested model are all non-empty and there is a timestamp. */
  lemma KeyIsFullIff(row: Row, defs: seq<ColumnDef>, log: Log, marshal: Value -> Option<string>)
    requires KEY_DEFS <= defs && IsRowOf(row, defs, log, marshal)
    requires ExtractsString(log, "hostid")
    requires ExtractsString(log, "ai_apikey_id") && ExtractsString(log, "ai_requested_model")
    ensures HasFullKey(row) <==>
      && log.fields("hostid").0.s != "" && log.fields("timestamp").0.Uint64?
      && log.fields("ai_apikey_id").0.s != "" && log.fields("ai_requested_model").0.s != ""
  {
    assert forall j :: 0 <= j < 4 ==> defs[j] == KEY_DEFS[j];
    var key := KeyOf(row);
    assert key == [row[0], row[1], row[2], row[3]];
    assert CellFor(defs[0], log, marshal) == Some(row[0]);
    assert CellFor(defs[1], log, marshal) == Some(row[1]);
    assert CellFor(defs[2], log, marshal) == Some(row[2]);
    assert CellFor(defs[3], log, marshal) == Some(row[3]);
  }

  /** Two log entries share a full key exactly if host id, timestamp, API key and requested model
      agree: nothing else tells requests apart. */
  lemma KeysAgreeIff(row: Row, row': Row, defs: seq<ColumnDef>, log: Log, log': Log,
                     marshal: Value -> Option<string>)
    requires KEY_DEFS <= defs && RowShows(row, defs, log, marshal) && RowShows(row', defs, log', marshal)
    requires ExtractsKey(log) && ExtractsKey(log') && HasFullKey(row) && HasFullKey(row')
    ensures KeyOf(row) == KeyOf(row') <==>
      && log.fields("hostid").0 == log'.fields("hostid").0
      && log.fields("timestamp").0 == log'.fields("timestamp").0
      && log.fields("ai_apikey_id").0 == log'.fields("ai_apikey_id").0
      && log.fields("ai_requested_model").0 == log'.fields("ai_requested_model").0
  {
    KeyShows(row, defs, log, marshal);
    KeyShows(row', defs, log', marshal);
  }

  lemma KeyShows(row: Row, defs: seq<ColumnDef>, log: Log, marshal: Value -> Option<string>)
    requires KEY_DEFS <= defs && RowShows(row, defs, log, marshal) && ExtractsKey(log) && HasFullKey(row)
    ensures KeyOf(row) == [row[0], row[1], row[2], row[3]] && ShowsTime(row[1], log.fields("timestamp").0)
    ensures row[0] == Text(log.fields("hostid").0.s)
    ensures row[2] == Text(log.fields("ai_apikey_id").0.s)
    ensures row[3] == Text(log.fields("ai_requested_model").0.s)
  {
    assert forall j :: 0 <= j < 4 ==> defs[j] == KEY_DEFS[j];
    assert Shows(row[0], defs[0], log, marshal) && Shows(row[1], defs[1], log, marshal);
    assert Shows(row[2], defs[2], log, marshal) && Shows(row[3], defs[3], log, marshal);
    var key := KeyOf(row);
    assert key == [row[0], row[1], row[2], row[3]];
    assert key[0] != Null && key[2] != Null && key[3] != Null;
  }

  ghost predicate ExtractsKey(log: Log) {
    && log.fields("timestamp").0.Uint64? && ExtractsString(log, "hostid")
    && ExtractsString(log, "ai_apikey_id") && ExtractsString(log, "ai_requested_model")
  }

  /** The table never refuses a row that ToRow builds: the host id is the host name with something
      appended, and the timestamp is always a number, so that neither is NULL. */
  lemma RowsAreStorable(row: Row, defs: seq<ColumnDef>, log: Log, marshal: Value -> Option<string>)
    requires KEY_DEFS <= defs && IsRowOf(row, defs, log, marshal)
    requires ExtractsString(log, "hostid") && log.fields("hostid").0.s != ""
    requires log.fields("timestamp").0.Uint64?
    ensures Storable(row)
  {
    assert forall j :: 0 <= j < 4 ==> defs[j] == KEY_DEFS[j];
    assert CellFor(defs[0], log, marshal) == Some(row[0]);
    assert CellFor(defs[1], log, marshal) == Some(row[1]);
  }

  /** A request without an API key is stored again by every replay. */
  lemma ReplayDuplicatesRequestsWithoutKey(t: Table, row: Row, defs: seq<ColumnDef>, log: Log,
                                           marshal: Value -> Option<string>)
    requires KEY_DEFS <= defs && IsRowOf(row, defs, log, marshal)
    requires ExtractsString(log, "hostid")
    requires ExtractsString(log, "ai_apikey_id") && ExtractsString(log, "ai_requested_model")
    requires log.fields("ai_apikey_id").0.s == ""
    ensures Apply(Apply(t, [row]), [row]).loose[row] == Apply(t, [row]).loose[row] + 1
  {
    KeyIsFullIff(row, defs, log, marshal);
    assert [row][..0] == [];
  }
}
