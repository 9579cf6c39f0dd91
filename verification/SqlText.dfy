/** Reading the text of an insert statement, as a database does: the table, the columns, how many
    placeholders each row has, and which column is set to the new value of which one if there is a
    row with the same key already. It knows nothing of how the statement is built. */
module SqlText {
  import opened Sequences

  /** A name that needs no quotes. */
  predicate IsName(s: string) {
    s != "" && forall c :: c in s ==> c !in " (),=?"
  }

  /** The text before the first `c`, and the text behind it. */
  function Cut(s: string, c: char): (r: Option<(string, string)>)
    ensures r.Some? ==> |r.value.1| < |s|
  {
    if s == [] then None
    else if s[0] == c then Some(([], s[1..]))
    else
      match Cut(s[1..], c)
      case None => None
      case Some((a, b)) => Some(([s[0]] + a, b))
  }

  function Strip(s: string, prefix: string): (r: Option<string>)
    ensures r.Some? ==> |r.value| == |s| - |prefix|
  {
    if |prefix| <= |s| && s[..|prefix|] == prefix then Some(s[|prefix|..]) else None
  }

  /** The text cut at every `c`. */
  function Pieces(s: string, c: char): seq<string>
    decreases |s|
  {
    match Cut(s, c)
    case None => [s]
    case Some((a, b)) => [a] + Pieces(b, c)
  }

  datatype Insert = Insert(table: string, cols: seq<string>, groups: seq<nat>, sets: seq<(string, string)>)

  /** (a,b) VALUES, and the text behind it. */
  function ReadColumns(s: string): Option<(seq<string>, string)> {
    match Strip(s, "(")
    case None => None
    case Some(s1) =>
      match Cut(s1, ')')
      case None => None
      case Some((cols, s2)) =>
        match Strip(s2, " VALUES ")
        case None => None
        case Some(rest) => Some((Pieces(cols, ','), rest))
  }

  /** INSERT INTO table, and the text behind it. */
  function ReadTable(s: string): Option<(string, string)> {
    match Strip(s, "INSERT INTO ")
    case None => None
    case Some(s1) => Cut(s1, ' ')
  }

  /** INSERT INTO table (a,b) VALUES, and the text behind it. */
  function ReadHead(s: string): Option<(string, seq<string>, string)> {
    match ReadTable(s)
    case None => None
    case Some((table, s1)) =>
      match ReadColumns(s1)
      case None => None
      case Some((cols, rest)) => Some((table, cols, rest))
  }

  /** (?,?),(?,?): how many placeholders there are in each row. */
  function ReadGroups(s: string): Option<seq<nat>>
    decreases |s|
  {
    match Strip(s, "(")
    case None => None
    case Some(s1) =>
      match Cut(s1, ')')
      case None => None
      case Some((marks, s2)) =>
        var n := |Pieces(marks, ',')|;
        if Pieces(marks, ',') != seq(n, _ => "?") then None
        else if s2 == "" then Some([n])
        else
          match Strip(s2, ",")
          case None => None
          case Some(s3) =>
            match ReadGroups(s3)
            case None => None
            case Some(more) => Some([n] + more)
  }

  /** a=VALUES(b): column a is set to the new value of column b. */
  function ReadSet(s: string): Option<(string, string)> {
    match Cut(s, '=')
    case None => None
    case Some((target, s1)) =>
      match Strip(s1, "VALUES(")
      case None => None
      case Some(s2) =>
        match Cut(s2, ')')
        case None => None
        case Some((source, s3)) => if s3 == "" then Some((target, source)) else None
  }

  function ReadSets(parts: seq<string>): Option<seq<(string, string)>> {
    if parts == [] then Some([])
    else
      match (ReadSet(parts[0]), ReadSets(parts[1..]))
      case (Some(x), Some(more)) => Some([x] + more)
      case _ => None
  }

  /** ON DUPLICATE KEY UPDATE a=VALUES(a),b=VALUES(b). */
  function ReadTail(s: string): Option<seq<(string, string)>> {
    match Strip(s, "ON DUPLICATE KEY UPDATE ")
    case None => None
    case Some(sets) => ReadSets(Pieces(sets, ','))
  }

  function ReadInsert(s: string): Option<Insert> {
    match ReadHead(s)
    case None => None
    case Some((table, cols, s1)) =>
      match Cut(s1, ' ')
      case None => None
      case Some((values, s2)) =>
        match (ReadGroups(values), ReadTail(s2))
        case (Some(groups), Some(sets)) => Some(Insert(table, cols, groups, sets))
        case _ => None
  }

  // ---------------------------------------------------------------- cutting what was put together

  lemma {:induction false} CutAtFirst(a: string, c: char, b: string)
    requires c !in a
    ensures Cut(a + [c] + b, c) == Some((a, b))
  {
    var s := a + [c] + b;
    if a == [] {
      assert s == [c] + b && s[1..] == b;
    } else {
      CutAtFirst(a[1..], c, b);
      assert s[0] == a[0] && s[1..] == a[1..] + [c] + b;
      assert [a[0]] + a[1..] == a;
    }
  }

  lemma {:induction false} NothingToCut(a: string, c: char)
    requires c !in a
    ensures Cut(a, c) == None
  {
    if a != [] {
      NothingToCut(a[1..], c);
    }
  }

  lemma StripFirst(prefix: string, s: string)
    ensures Strip(prefix + s, prefix) == Some(s)
  {
    assert (prefix + s)[..|prefix|] == prefix && (prefix + s)[|prefix|..] == s;
  }

  function Join(parts: seq<string>, sep: string): string {
    if parts == [] then ""
    else if |parts| == 1 then parts[0]
    else parts[0] + sep + Join(parts[1..], sep)
  }

  /** Round trip: joined parts that do not hold the separator come apart again. */
  lemma {:induction false} PiecesOfJoin(parts: seq<string>, c: char)
    requires parts != [] && forall i :: 0 <= i < |parts| ==> c !in parts[i]
    ensures Pieces(Join(parts, [c]), c) == parts
  {
    if |parts| == 1 {
      NothingToCut(parts[0], c);
    } else {
      CutAtFirst(parts[0], c, Join(parts[1..], [c]));
      PiecesOfJoin(parts[1..], c);
      assert [parts[0]] + parts[1..] == parts;
    }
  }

  lemma {:induction false} NotInJoin(parts: seq<string>, sep: string, c: char)
    requires c !in sep && forall i :: 0 <= i < |parts| ==> c !in parts[i]
    ensures c !in Join(parts, sep)
  {
    if |parts| > 1 {
      NotInJoin(parts[1..], sep, c);
    }
  }

  lemma HeadShape(insert: string, table: string, list: string, rest: string)
    ensures insert + table + " (" + list + ") VALUES " + rest
         == insert + (table + [' '] + ("(" + (list + [')'] + (" VALUES " + rest))))
  {
    assert " (" == [' '] + "(" && ") VALUES " == [')'] + " VALUES ";
    Regroup(insert, table, [' '], "(", list, [')'], " VALUES ", rest);
  }

  lemma Regroup(a: string, b: string, c: string, d: string, e: string, f: string, g: string, h: string)
    ensures a + b + (c + d) + e + (f + g) + h == a + (b + c + (d + (e + f + (g + h))))
  {
  }

  lemma TableReads(table: string, rest: string)
    requires IsName(table)
    ensures ReadTable("INSERT INTO " + (table + [' '] + rest)) == Some((table, rest))
  {
    StripFirst("INSERT INTO ", table + [' '] + rest);
    CutAtFirst(table, ' ', rest);
  }

  lemma ColumnsRead(cols: seq<string>, rest: string)
    requires cols != [] && forall i :: 0 <= i < |cols| ==> IsName(cols[i])
    ensures ReadColumns("(" + (Join(cols, ",") + [')'] + (" VALUES " + rest))) == Some((cols, rest))
  {
    var list := Join(cols, ",");
    StripFirst("(", list + [')'] + (" VALUES " + rest));
    NotInJoin(cols, ",", ')');
    CutAtFirst(list, ')', " VALUES " + rest);
    StripFirst(" VALUES ", rest);
    PiecesOfJoin(cols, ',');
  }

  lemma HeadReads(table: string, cols: seq<string>, rest: string)
    requires IsName(table) && cols != [] && forall i :: 0 <= i < |cols| ==> IsName(cols[i])
    ensures ReadHead("INSERT INTO " + table + " (" + Join(cols, ",") + ") VALUES " + rest) == Some((table, cols, rest))
  {
    var s1 := "(" + (Join(cols, ",") + [')'] + (" VALUES " + rest));
    HeadShape("INSERT INTO ", table, Join(cols, ","), rest);
    TableReads(table, s1);
    ColumnsRead(cols, rest);
  }

  /** One row of placeholders. */
  function Marked(n: nat): string {
    "(" + Join(seq(n, _ => "?"), ",") + ")"
  }

  lemma MarkedReads(n: nat, rest: string)
    requires n > 0
    ensures var marks := Join(seq(n, _ => "?"), ",");
      && Strip(Marked(n) + rest, "(") == Some(marks + [')'] + rest)
      && Cut(marks + [')'] + rest, ')') == Some((marks, rest))
      && Pieces(marks, ',') == seq(n, _ => "?")
  {
    var marks := Join(seq(n, _ => "?"), ",");
    assert Marked(n) + rest == "(" + (marks + [')'] + rest);
    StripFirst("(", marks + [')'] + rest);
    NotInJoin(seq(n, _ => "?"), ",", ')');
    CutAtFirst(marks, ')', rest);
    PiecesOfJoin(seq(n, _ => "?"), ',');
  }

  lemma {:induction false} GroupsRead(rows: seq<string>, n: nat)
    requires n > 0 && rows != [] && forall i :: 0 <= i < |rows| ==> rows[i] == Marked(n)
    ensures ReadGroups(Join(rows, ",")) == Some(seq(|rows|, _ => n))
    decreases |rows|
  {
    if |rows| == 1 {
      MarkedReads(n, "");
      assert Marked(n) + "" == Join(rows, ",");
      assert [n] == seq(1, _ => n);
    } else {
      var more := Join(rows[1..], ",");
      GroupsRead(rows[1..], n);
      MarkedReads(n, "," + more);
      Reassociate(Marked(n), ",", more);
      StripFirst(",", more);
      assert [n] + seq(|rows| - 1, _ => n) == seq(|rows|, _ => n);
    }
  }

  lemma SetReads(col: string)
    requires IsName(col)
    ensures ReadSet(col + "=VALUES(" + col + ")") == Some((col, col))
  {
    var s2 := col + [')'] + "";
    assert col + "=VALUES(" + col + ")" == col + ['='] + ("VALUES(" + s2);
    CutAtFirst(col, '=', "VALUES(" + s2);
    StripFirst("VALUES(", s2);
    CutAtFirst(col, ')', "");
  }

  lemma {:induction false} SetsRead(parts: seq<string>, cols: seq<string>)
    requires |parts| == |cols| && forall i :: 0 <= i < |cols| ==> ReadSet(parts[i]) == Some((cols[i], cols[i]))
    ensures ReadSets(parts) == Some(Each(cols))
    decreases |parts|
  {
    if parts != [] {
      SetsRead(parts[1..], cols[1..]);
    }
  }

  /** Each column is set to its own new value. */
  function Each(cols: seq<string>): seq<(string, string)> {
    if cols == [] then [] else [(cols[0], cols[0])] + Each(cols[1..])
  }
}
