/** The live database as the schema engine sees it: a map from table name to the table's
    columns after the implicit `id serial PRIMARY KEY` column, and the three kinds of DDL
    statement the engine sends, each with its SQL text and its effect on that map. */
module Database {
  import opened Wrappers

  datatype Column = Column(name: string, sqlType: string)

  type Tables = map<string, seq<Column>>

  datatype Statement =
    | CreateTable(table: string, columns: seq<Column>)
    | DropTableIfExists(table: string)
    | AlterTableAddColumns(table: string, columns: seq<Column>)

  /** The summed lengths of the parts. */
  function TotalLength(parts: seq<string>): nat
  {
    if parts == [] then 0 else |parts[0]| + TotalLength(parts[1..])
  }

  /** Python's `sep.join(parts)`: the parts in order with one separator between neighbours. */
  function Join(sep: string, parts: seq<string>): (s: string)
    ensures |parts| > 0 ==> parts[0] <= s
    ensures |parts| > 0 ==> |s| == TotalLength(parts) + |sep| * (|parts| - 1)
    ensures parts == [] ==> s == ""
  {
    if |parts| == 0 then ""
    else if |parts| == 1 then parts[0]
    else
      var rest := Join(sep, parts[1..]);
      assert |sep| * (|parts| - 1) == |sep| + |sep| * (|parts[1..]| - 1);
      assert parts[0] + sep + rest == parts[0] + (sep + rest);
      parts[0] + sep + rest
  }

  /** The text of one column definition: name, a space, the SQL type. */
  function ColumnDef(c: Column): string
  {
    c.name + " " + c.sqlType
  }

  /** The words a statement starts with, up to the table name. */
  function Keyword(s: Statement): string
  {
    match s
    case CreateTable(_, _) => "CREATE TABLE "
    case DropTableIfExists(_) => "DROP TABLE IF EXISTS "
    case AlterTableAddColumns(_, _) => "ALTER TABLE "
  }

  /** The SQL text of a statement: its keyword, the table name interpolated as given, the
      column clauses, and a closing semicolon. */
  function Sql(s: Statement): (r: string)
    ensures Keyword(s) + s.table <= r
    ensures |r| > 0 && r[|r| - 1] == ';'
  {
    var body := match s
      case CreateTable(t, cols) =>
        " (id serial PRIMARY KEY, "
        + Join(", ", seq(|cols|, i requires 0 <= i < |cols| => ColumnDef(cols[i]))) + ")"
      case DropTableIfExists(t) => ""
      case AlterTableAddColumns(t, cols) =>
        " " + Join(", ", seq(|cols|, i requires 0 <= i < |cols| => "ADD COLUMN " + ColumnDef(cols[i])));
    assert Keyword(s) + s.table + body + ";" == (Keyword(s) + s.table) + (body + ";");
    Keyword(s) + s.table + body + ";"
  }

  /** The effect of executing a statement, or None when the database rejects it: a CREATE of
      a name that exists, an ALTER of a name that does not, and a CREATE or ALTER with no
      column clause at all (its text is not valid SQL). */
  function Execute(db: Tables, s: Statement): (r: Option<Tables>)
    ensures s.DropTableIfExists? ==> r.Some? && s.table !in r.value
    ensures s.CreateTable? ==> (r.Some? <==> s.table !in db && s.columns != [])
    ensures s.AlterTableAddColumns? ==> (r.Some? <==> s.table in db && s.columns != [])
    ensures r.Some? && s.CreateTable? ==> s.table in r.value && r.value[s.table] == s.columns
    ensures r.Some? && s.AlterTableAddColumns? ==> s.table in r.value && r.value[s.table] == db[s.table] + s.columns
    ensures r.Some? ==> r.value.Keys - {s.table} == db.Keys - {s.table}
  {
    match s
    case CreateTable(t, cols) =>
      if t in db || cols == [] then None else Some(db[t := cols])
    case DropTableIfExists(t) =>
      Some(db - {t})
    case AlterTableAddColumns(t, cols) =>
      if t !in db || cols == [] then None else Some(db[t := db[t] + cols])
  }

  /** Joining two non-empty lists is joining each and putting the separator between them. */
  lemma {:induction false} JoinConcat(sep: string, a: seq<string>, b: seq<string>)
    requires |a| > 0 && |b| > 0
    ensures Join(sep, a + b) == Join(sep, a) + sep + Join(sep, b)
    decreases |a|
  {
    if |a| == 1 {
      assert (a + b)[1..] == b;
    } else {
      assert (a + b)[1..] == a[1..] + b;
      JoinConcat(sep, a[1..], b);
    }
  }

  /** A statement touches only the table it names. */
  lemma ExecuteTouchesOnlyItsTable(db: Tables, s: Statement, other: string)
    requires Execute(db, s).Some? && other != s.table
    ensures other in Execute(db, s).value <==> other in db
    ensures other in db ==> Execute(db, s).value[other] == db[other]
  {
  }

  /** Dropping a table and creating it again with some columns always succeeds when there is
      at least one column, whether or not the table existed, and leaves exactly those columns. */
  lemma DropThenCreate(db: Tables, t: string, cols: seq<Column>)
    ensures var dropped := Execute(db, DropTableIfExists(t)).value;
      && t !in dropped
      && (Execute(dropped, CreateTable(t, cols)).Some? <==> cols != [])
      && (cols != [] ==> Execute(dropped, CreateTable(t, cols)).value == db[t := cols])
  {
    var dropped := db - {t};
    if cols != [] {
      assert dropped[t := cols] == db[t := cols];
    }
  }

  /** Adding columns to a table has the same effect on the schema as dropping it and creating
      it again with its old columns followed by the new ones. */
  lemma AlterIsRecreateWithConcat(db: Tables, t: string, cols: seq<Column>)
    requires t in db && cols != []
    ensures Execute(db, AlterTableAddColumns(t, cols))
         == Execute(Execute(db, DropTableIfExists(t)).value, CreateTable(t, db[t] + cols))
  {
    assert (db - {t})[t := db[t] + cols] == db[t := db[t] + cols];
  }
}
