/**
 The database-adapter contract of src/adapters.py: the three backends, their parameter
 placeholders, how each hands a multi-statement script to its driver, and the parts of schema
 introspection that are computed from catalog rows rather than by the database (Postgres DDL
 synthesis, SQLite row mapping, the MySQL skip rule). The driver itself is not modelled: what
 a catalog query returns is an input, and what the adapter sends to its cursor is recorded as
 a sequence of calls.
 */
module Adapters {
  import opened Wrappers
  import opened Text

  /** The closed set of backends: SQLiteAdapter, PostgresAdapter and MySQLAdapter. */
  datatype Dialect = SQLite | Postgres | MySQL

  /** `get_placeholder`: the positional-parameter marker of the dialect. */
  function Placeholder(d: Dialect): (p: string)
    ensures p == "?" <==> d == SQLite
    ensures p == "%s" <==> d != SQLite
  {
    match d
    case SQLite => "?"
    case Postgres => "%s"
    case MySQL => "%s"
  }

  /** The ledger INSERT that apply issues, with four parameters marked by `p`. */
  function LedgerInsertSql(p: string): string
  {
    "INSERT INTO schema_migrations (version, name, checksum, execution_time_ms) VALUES ("
      + p + ", " + p + ", " + p + ", " + p + ")"
  }

  /** The ledger DELETE that rollback issues, keyed by version. */
  function LedgerDeleteSql(p: string): string
  {
    "DELETE FROM schema_migrations WHERE version = " + p
  }

  // ---------------------------------------------------------------------------------------
  // Script execution

  /** One call an adapter makes on its cursor. */
  datatype Call = Execute(sql: string) | ExecuteScript(sql: string)

  /**
   The stripped, non-empty pieces, in order: `[s.strip() for s in pieces if s.strip()]`. There
   are never more statements than pieces.
   */
  function Statements(pieces: seq<string>): (r: seq<string>)
    ensures |r| <= |pieces|
  {
    if pieces == [] then []
    else
      var st := Strip(pieces[0]);
      (if st != [] then [st] else []) + Statements(pieces[1..])
  }

  /** Every statement is a non-blank piece, stripped. */
  lemma {:induction false} StatementsFromPieces(pieces: seq<string>)
    ensures forall st <- Statements(pieces) :: st != [] && exists p <- pieces :: Strip(p) == st
  {
    if pieces != [] {
      var st := Strip(pieces[0]);
      var head := if st != [] then [st] else [];
      var rest := Statements(pieces[1..]);
      assert Statements(pieces) == head + rest;
      StatementsFromPieces(pieces[1..]);
      forall x | x in head + rest ensures x != [] && exists q <- pieces :: Strip(q) == x {
        if x in rest {
          var q :| q in pieces[1..] && Strip(q) == x;
          assert q in pieces;
        } else {
          assert pieces[0] in pieces;
        }
      }
    }
  }

  /** Every non-blank piece yields its stripped text as a statement. */
  lemma {:induction false} StatementsKeepPieces(pieces: seq<string>)
    ensures forall p <- pieces :: Strip(p) != [] ==> Strip(p) in Statements(pieces)
  {
    if pieces != [] {
      var st := Strip(pieces[0]);
      var head := if st != [] then [st] else [];
      var rest := Statements(pieces[1..]);
      assert Statements(pieces) == head + rest;
      StatementsKeepPieces(pieces[1..]);
      forall q | q in pieces && Strip(q) != [] ensures Strip(q) in head + rest {
        if q != pieces[0] {
          var i :| 0 <= i < |pieces| && pieces[i] == q;
          assert pieces[1..][i - 1] == q;
        }
      }
    }
  }

  /**
   The comprehension keeps order and multiplicity: a single piece yields its stripped text when
   that is not blank and nothing otherwise, and the statements of a concatenation are those of
   each part in turn.
   */
  lemma {:induction false} StatementsInOrder(a: seq<string>, b: seq<string>, p: string)
    ensures Statements([p]) == if Strip(p) == [] then [] else [Strip(p)]
    ensures Statements(a + b) == Statements(a) + Statements(b)
  {
    assert [p][1..] == [];
    if a == [] {
      assert a + b == b;
    } else {
      var head := if Strip(a[0]) != [] then [Strip(a[0])] else [];
      assert (a + b)[0] == a[0];
      assert (a + b)[1..] == a[1..] + b;
      assert Statements(a) == head + Statements(a[1..]);
      StatementsInOrder(a[1..], b, p);
      calc {
        Statements(a + b);
        { assert a + b != []; }
        head + Statements(a[1..] + b);
        head + (Statements(a[1..]) + Statements(b));
        { ConcatAssoc(head, Statements(a[1..]), Statements(b)); }
        Statements(a) + Statements(b);
      }
    }
  }

  /**
   What MySQLAdapter.execute_script runs: the script split on `;`, stripped, empties dropped.
   No statement is empty, holds a `;` or has whitespace at either end, and the split loses
   nothing but whitespace and semicolons: every other character of the script reaches the
   driver, in its original order.
   */
  function SplitStatements(script: string): (r: seq<string>)
    ensures forall st <- r :: WellFormedStatement(st)
    ensures VisibleAll(r) == Visible(script)
  {
    var pieces := SplitAll(script, ';');
    StatementsWellFormed(pieces);
    VisibleStatements(pieces);
    VisibleJoin(pieces);
    Statements(pieces)
  }

  /** A statement that is non-empty, free of `;`, and without whitespace at either end. */
  predicate WellFormedStatement(st: string)
  {
    st != [] && ';' !in st && !IsSpace(st[0]) && !IsSpace(st[|st| - 1])
  }

  /** A stripped piece without `;` that is not blank is a well-formed statement. */
  lemma StripWellFormed(piece: string)
    requires ';' !in piece && Strip(piece) != []
    ensures WellFormedStatement(Strip(piece))
  {
    ContainsNoChar(piece, Strip(piece), ';');
  }

  lemma {:induction false} StatementsWellFormed(pieces: seq<string>)
    requires forall p <- pieces :: ';' !in p
    ensures forall st <- Statements(pieces) :: WellFormedStatement(st)
  {
    if pieces != [] {
      var rest := pieces[1..];
      var st := Strip(pieces[0]);
      var head := if st != [] then [st] else [];
      assert Statements(pieces) == head + Statements(rest);
      forall p | p in rest ensures ';' !in p {
        assert p in pieces;
      }
      StatementsWellFormed(rest);
      if st != [] {
        StripWellFormed(pieces[0]);
      }
      forall x | x in Statements(pieces) ensures WellFormedStatement(x) {
        if x !in Statements(rest) {
          assert x in head;
        }
      }
    }
  }

  /**
   The calls `execute_script` makes: SQLite hands the whole script to `executescript`, Postgres
   to a single `execute`, and MySQL executes each split statement in turn.
   */
  function ScriptCalls(d: Dialect, script: string): (r: seq<Call>)
    ensures forall c <- r :: c.ExecuteScript? <==> d == SQLite
    ensures d != MySQL ==> |r| == 1 && r[0].sql == script
    ensures d == MySQL ==> forall c <- r :: WellFormedStatement(c.sql)
  {
    match d
    case SQLite => [ExecuteScript(script)]
    case Postgres => [Execute(script)]
    case MySQL =>
      var statements := SplitStatements(script);
      var calls := ExecuteEach(statements);
      assert forall c <- calls :: c.Execute? && WellFormedStatement(c.sql) by {
        forall c | c in calls ensures c.Execute? && WellFormedStatement(c.sql) {
          var k :| 0 <= k < |calls| && calls[k] == c;
          assert statements[k] in statements;
        }
      }
      calls
  }

  /**
   What a completed apply sends: the dialect's calls for the up-script, in order, then the
   ledger INSERT with the dialect's placeholder; on SQLite and Postgres that is two calls.
   */
  function ApplyCalls(d: Dialect, script: string): (r: seq<Call>)
    ensures |r| == |ScriptCalls(d, script)| + 1
    ensures forall k :: 0 <= k < |r| - 1 ==> r[k] == ScriptCalls(d, script)[k]
    ensures r[|r| - 1] == Execute(LedgerInsertSql(Placeholder(d)))
    ensures d != MySQL ==> |r| == 2 && r[0].sql == script
  {
    ScriptCalls(d, script) + [Execute(LedgerInsertSql(Placeholder(d)))]
  }

  /**
   What a completed rollback sends: the dialect's calls for the down-script, in order, then the
   ledger DELETE with the dialect's placeholder; on SQLite and Postgres that is two calls.
   */
  function RollbackCalls(d: Dialect, script: string): (r: seq<Call>)
    ensures |r| == |ScriptCalls(d, script)| + 1
    ensures forall k :: 0 <= k < |r| - 1 ==> r[k] == ScriptCalls(d, script)[k]
    ensures r[|r| - 1] == Execute(LedgerDeleteSql(Placeholder(d)))
    ensures d != MySQL ==> |r| == 2 && r[0].sql == script
  {
    ScriptCalls(d, script) + [Execute(LedgerDeleteSql(Placeholder(d)))]
  }

  /** One `execute` per statement, in order. */
  function ExecuteEach(statements: seq<string>): (r: seq<Call>)
    ensures |r| == |statements|
    ensures forall k :: 0 <= k < |r| ==> r[k] == Execute(statements[k])
  {
    if statements == [] then []
    else ExecuteEach(statements[..|statements| - 1]) + [Execute(statements[|statements| - 1])]
  }

  /** A driver cursor, observed through the calls made on it. */
  class Cursor {
    var calls: seq<Call>

    constructor ()
      ensures calls == []
    {
      calls := [];
    }
  }

  /** `execute_script` of each adapter: appends to the cursor exactly the calls of ScriptCalls. */
  method ExecuteScriptOn(d: Dialect, cursor: Cursor, script: string)
    modifies cursor
    ensures cursor.calls == old(cursor.calls) + ScriptCalls(d, script)
  {
    match d
    case SQLite =>
      cursor.calls := cursor.calls + [ExecuteScript(script)];
    case Postgres =>
      cursor.calls := cursor.calls + [Execute(script)];
    case MySQL =>
      var statements := SplitStatements(script);
      ExecuteEachOn(cursor, statements);
  }

  method ExecuteEachOn(cursor: Cursor, statements: seq<string>)
    modifies cursor
    ensures cursor.calls == old(cursor.calls) + ExecuteEach(statements)
  {
    for i := 0 to |statements|
      invariant cursor.calls == old(cursor.calls) + ExecuteEach(statements[..i])
    {
      assert statements[..i + 1][..i] == statements[..i];
      cursor.calls := cursor.calls + [Execute(statements[i])];
    }
    assert statements[..|statements|] == statements;
  }

  /** A completed apply on the cursor: the up-script, then the ledger INSERT. */
  method ExecuteApplyOn(d: Dialect, cursor: Cursor, script: string)
    modifies cursor
    ensures cursor.calls == old(cursor.calls) + ApplyCalls(d, script)
  {
    ExecuteScriptOn(d, cursor, script);
    var insert := Execute(LedgerInsertSql(Placeholder(d)));
    cursor.calls := cursor.calls + [insert];
    ConcatAssoc(old(cursor.calls), ScriptCalls(d, script), [insert]);
  }

  /** A completed rollback on the cursor: the down-script, then the ledger DELETE. */
  method ExecuteRollbackOn(d: Dialect, cursor: Cursor, script: string)
    modifies cursor
    ensures cursor.calls == old(cursor.calls) + RollbackCalls(d, script)
  {
    ExecuteScriptOn(d, cursor, script);
    var delete := Execute(LedgerDeleteSql(Placeholder(d)));
    cursor.calls := cursor.calls + [delete];
    ConcatAssoc(old(cursor.calls), ScriptCalls(d, script), [delete]);
  }

  /** The characters of `s` that are neither whitespace nor `;`. */
  function Visible(s: string): string
  {
    if s == [] then []
    else (if IsSpace(s[0]) || s[0] == ';' then [] else [s[0]]) + Visible(s[1..])
  }

  /** The visible characters of every string of `parts`, in order. */
  function VisibleAll(parts: seq<string>): string
  {
    if parts == [] then [] else Visible(parts[0]) + VisibleAll(parts[1..])
  }

  lemma {:induction false} VisibleAppend(a: string, b: string)
    ensures Visible(a + b) == Visible(a) + Visible(b)
  {
    if a == [] {
      assert a + b == b;
    } else {
      assert (a + b)[0] == a[0];
      assert (a + b)[1..] == a[1..] + b;
      VisibleAppend(a[1..], b);
    }
  }

  lemma {:induction false} VisibleTrimStart(s: string)
    ensures Visible(TrimStart(s)) == Visible(s)
  {
    if s != [] && IsSpace(s[0]) {
      VisibleTrimStart(s[1..]);
    }
  }

  lemma {:induction false} VisibleTrimEnd(s: string)
    ensures Visible(TrimEnd(s)) == Visible(s)
  {
    if s != [] && IsSpace(s[|s| - 1]) {
      var init := s[..|s| - 1];
      assert s == init + [s[|s| - 1]];
      VisibleAppend(init, [s[|s| - 1]]);
      VisibleTrimEnd(init);
    }
  }

  lemma {:induction false} VisibleJoin(parts: seq<string>)
    ensures Visible(Join(parts, ";")) == VisibleAll(parts)
  {
    if |parts| > 1 {
      VisibleAppend(parts[0], ";" + Join(parts[1..], ";"));
      VisibleAppend(";", Join(parts[1..], ";"));
      VisibleJoin(parts[1..]);
      assert parts[0] + ";" + Join(parts[1..], ";") == parts[0] + (";" + Join(parts[1..], ";"));
    } else if |parts| == 1 {
      assert parts[1..] == [];
    }
  }

  lemma {:induction false} VisibleStrip(p: string)
    ensures Visible(Strip(p)) == Visible(p)
  {
    VisibleTrimStart(p);
    VisibleTrimEnd(TrimStart(p));
  }

  lemma {:induction false} VisibleStatements(pieces: seq<string>)
    ensures VisibleAll(Statements(pieces)) == VisibleAll(pieces)
  {
    if pieces != [] {
      var st := Strip(pieces[0]);
      var rest := Statements(pieces[1..]);
      VisibleStrip(pieces[0]);
      VisibleStatements(pieces[1..]);
      if st != [] {
        assert Statements(pieces) == [st] + rest;
        assert ([st] + rest)[1..] == rest;
      } else {
        assert Statements(pieces) == rest;
      }
    }
  }

  /** A script without a `;` that is not blank is executed as one statement: the stripped script. */
  lemma SplitStatementsSingle(script: string)
    requires ';' !in script && Strip(script) != []
    ensures SplitStatements(script) == [Strip(script)]
  {
    assert SplitAll(script, ';') == [script];
  }

  // ---------------------------------------------------------------------------------------
  // Postgres DDL synthesis

  /** One row of `information_schema.columns`: column_name, data_type, is_nullable, column_default. */
  datatype ColumnRow = ColumnRow(name: string, dataType: string, isNullable: string, default: Option<string>)

  /** Python truthiness of `column_default`: present and not the empty string. */
  predicate HasDefault(c: ColumnRow)
  {
    c.default.Some? && c.default.value != ""
  }

  /**
   What a column line looks like: it starts with two spaces, the name and the type; ` NOT NULL`
   follows exactly when is_nullable is "NO"; ` DEFAULT <value>` ends it when the default is
   non-empty; and its length leaves room for nothing else (`ColumnLineUnique`).
   */
  predicate ColumnLine(c: ColumnRow, line: string)
  {
    var head := "  " + c.name + " " + c.dataType;
    && StartsWithText(line, head)
    && (c.isNullable == "NO" ==> |head| + 9 <= |line| && line[|head|..|head| + 9] == " NOT NULL")
    && (HasDefault(c) ==> EndsWithText(line, " DEFAULT " + c.default.value))
    && (!HasDefault(c) && c.isNullable == "NO" ==> EndsWithText(line, " NOT NULL"))
    && |line| == 3 + |c.name| + |c.dataType|
      + (if c.isNullable == "NO" then 9 else 0)
      + (if HasDefault(c) then 9 + |c.default.value| else 0)
  }

  /** One column line of the synthesised CREATE TABLE. */
  function ColumnDef(c: ColumnRow): (r: string)
    ensures ColumnLine(c, r)
  {
    var head := "  " + c.name + " " + c.dataType;
    var nn := NotNullClause(c);
    var df := DefaultClause(c);
    assert (head + nn + df)[..|head|] == head;
    assert (head + nn + df)[|head + nn|..] == df;
    assert (head + nn + df)[|head|..|head + nn|] == nn;
    assert df == "" ==> (head + nn)[|head|..] == nn;
    head + nn + df
  }

  /** The column line is determined by its shape: `ColumnDef` is the only line that fits it. */
  lemma ColumnLineUnique(c: ColumnRow, line: string)
    requires ColumnLine(c, line)
    ensures line == ColumnDef(c)
  {
    var head := "  " + c.name + " " + c.dataType;
    var nn := NotNullClause(c);
    var df := DefaultClause(c);
    var i := |head|;
    var j := |head| + |nn|;
    assert line[..i] == head;
    assert line[i..j] == nn;
    assert line[j..] == df;
    assert line == line[..i] + line[i..j] + line[j..];
  }

  function NotNullClause(c: ColumnRow): string
  {
    if c.isNullable == "NO" then " NOT NULL" else ""
  }

  function DefaultClause(c: ColumnRow): string
  {
    if HasDefault(c) then " DEFAULT " + c.default.value else ""
  }

  /** The column lines of a table, in ordinal order. */
  function ColumnDefs(cols: seq<ColumnRow>): (r: seq<string>)
    ensures |r| == |cols|
    ensures forall k :: 0 <= k < |r| ==> r[k] == ColumnDef(cols[k])
  {
    if cols == [] then []
    else
      var init := ColumnDefs(cols[..|cols| - 1]);
      var line := ColumnDef(cols[|cols| - 1]);
      assert forall k :: 0 <= k < |init| ==> (init + [line])[k] == init[k];
      init + [line]
  }

  /**
   What a CREATE TABLE block looks like: the header naming the table, then the column lines in
   order with `,\n` between neighbours, then the closing `);` on a line of its own.
   `TableBlockUnique` shows nothing else fits, and `TableDdlHoldsColumns` that every column's
   line is in it.
   */
  predicate TableBlock(table: string, cols: seq<ColumnRow>, block: string)
  {
    var head := "CREATE TABLE " + table + " (\n";
    && StartsWithText(block, head)
    && EndsWithText(block, "\n);")
    && |head| + 3 <= |block|
    && JoinLayout(ColumnDefs(cols), ",\n", block[|head|..|block| - 3])
  }

  /** The CREATE TABLE block of one table: its column lines joined by `,\n`. */
  function TableDdl(table: string, cols: seq<ColumnRow>): (r: string)
    ensures TableBlock(table, cols, r)
  {
    var head := "CREATE TABLE " + table + " (\n";
    var body := Join(ColumnDefs(cols), ",\n");
    JoinParts(ColumnDefs(cols), ",\n");
    assert (head + body + "\n);")[..|head|] == head;
    assert (head + body + "\n);")[|head|..|head| + |body|] == body;
    head + body + "\n);"
  }

  /** Every column's line occurs in the table's block. */
  lemma TableDdlHoldsColumns(table: string, cols: seq<ColumnRow>)
    ensures forall c <- cols :: Contains(TableDdl(table, cols), ColumnDef(c))
  {
    var head := "CREATE TABLE " + table + " (\n";
    var body := Join(ColumnDefs(cols), ",\n");
    JoinParts(ColumnDefs(cols), ",\n");
    forall c | c in cols ensures Contains(head + body + "\n);", ColumnDef(c)) {
      var k :| 0 <= k < |cols| && cols[k] == c;
      assert ColumnDefs(cols)[k] == ColumnDef(c);
      ContainsWithin(head, body, "\n);", ColumnDef(c));
    }
  }

  /** A block with the header, the laid-out column lines and the footer is the table's DDL. */
  lemma TableBlockUnique(table: string, cols: seq<ColumnRow>, block: string)
    requires TableBlock(table, cols, block)
    ensures block == TableDdl(table, cols)
  {
    var head := "CREATE TABLE " + table + " (\n";
    var body := block[|head|..|block| - 3];
    JoinLayoutUnique(ColumnDefs(cols), ",\n", body);
    assert body == Join(ColumnDefs(cols), ",\n");
    assert block[..|head|] == head;
    assert block[|block| - 3..] == "\n);";
    SliceThree(block, |head|, |block| - 3);
    assert TableDdl(table, cols) == head + Join(ColumnDefs(cols), ",\n") + "\n);";
  }

  /** A table of the `public` schema with its column rows in ordinal order. */
  datatype TableColumns = TableColumns(table: string, columns: seq<ColumnRow>)

  /** The CREATE TABLE blocks of the tables, in order. */
  function TableBlocks(tables: seq<TableColumns>): (r: seq<string>)
    ensures |r| == |tables|
    ensures forall k :: 0 <= k < |r| ==> r[k] == TableDdl(tables[k].table, tables[k].columns)
  {
    if tables == [] then []
    else
      var last := tables[|tables| - 1];
      var init := TableBlocks(tables[..|tables| - 1]);
      var block := TableDdl(last.table, last.columns);
      assert forall k :: 0 <= k < |init| ==> (init + [block])[k] == init[k];
      init + [block]
  }

  /**
   The whole synthesised schema: the tables' blocks in order, neighbours separated by a blank
   line, and nothing else. Every table's block appears in it, and no tables give the empty text.
   */
  function PostgresDdl(tables: seq<TableColumns>): (r: string)
    ensures JoinLayout(TableBlocks(tables), "\n\n", r)
    ensures forall t <- tables :: Contains(r, TableDdl(t.table, t.columns))
    ensures tables == [] ==> r == ""
  {
    var blocks := TableBlocks(tables);
    JoinParts(blocks, "\n\n");
    forall t | t in tables ensures TableDdl(t.table, t.columns) in blocks {
      var k :| 0 <= k < |tables| && tables[k] == t;
      assert blocks[k] == TableDdl(t.table, t.columns);
    }
    Join(blocks, "\n\n")
  }

  /**
   `PostgresAdapter.get_schema` after the catalog queries: builds each table's column lines and
   each block by appending in loops, then joins the blocks.
   */
  method PostgresSchema(tables: seq<TableColumns>) returns (ddl: string)
    ensures ddl == PostgresDdl(tables)
  {
    var ddlStatements: seq<string> := [];
    for t := 0 to |tables|
      invariant ddlStatements == TableBlocks(tables[..t])
    {
      var colDefs := PostgresColumnLines(tables[t].columns);
      var ddlBlock := "CREATE TABLE " + tables[t].table + " (\n" + Join(colDefs, ",\n") + "\n);";
      assert tables[..t + 1][..t] == tables[..t];
      ddlStatements := ddlStatements + [ddlBlock];
    }
    assert tables[..|tables|] == tables;
    ddl := Join(ddlStatements, "\n\n");
  }

  /** The inner loop of `get_schema`: one column line per row, in order. */
  method PostgresColumnLines(columns: seq<ColumnRow>) returns (colDefs: seq<string>)
    ensures colDefs == ColumnDefs(columns)
  {
    colDefs := [];
    for k := 0 to |columns|
      invariant |colDefs| == k
      invariant forall j :: 0 <= j < k ==> colDefs[j] == ColumnDef(columns[j])
    {
      var col := columns[k];
      var colDef := "  " + col.name + " " + col.dataType;
      ghost var head := colDef;
      if col.isNullable == "NO" {
        colDef := colDef + " NOT NULL";
      }
      assert colDef == head + NotNullClause(col);
      if HasDefault(col) {
        colDef := colDef + " DEFAULT " + col.default.value;
        assert colDef == head + NotNullClause(col) + DefaultClause(col);
      } else {
        assert colDef == head + NotNullClause(col) + DefaultClause(col);
      }
      assert colDef == ColumnDef(col);
      colDefs := colDefs + [colDef];
    }
  }

  /** A table without columns still yields a well-formed, empty block. */
  lemma EmptyTableDdl(table: string)
    ensures TableDdl(table, []) == "CREATE TABLE " + table + " (\n\n);"
  {
  }

  // ---------------------------------------------------------------------------------------
  // SQLite introspection

  /**
   The SQLite schema: the stored CREATE statements joined by a blank line. It is laid out as
   the statements in order with one separator between each neighbouring pair and nothing else,
   so every stored statement appears in it.
   */
  function SqliteSchema(storedSql: seq<string>): (r: string)
    ensures JoinLayout(storedSql, "\n\n", r)
    ensures forall s <- storedSql :: Contains(r, s)
    ensures storedSql == [] ==> r == ""
    ensures storedSql != [] ==> |r| == TotalLength(storedSql) + 2 * (|storedSql| - 1)
  {
    JoinParts(storedSql, "\n\n");
    Join(storedSql, "\n\n")
  }

  /** A row of `PRAGMA table_info`: cid, name, type, notnull, dflt_value, pk. */
  datatype PragmaColumn = PragmaColumn(cid: int, name: string, colType: string, notNull: int, default: Option<string>, pk: int)

  /** A column as `inspect_table` reports it. */
  datatype ColumnInfo = ColumnInfo(name: string, colType: string, nullable: bool, default: Option<string>, primaryKey: bool)

  /** The column mapping of `SQLiteAdapter.inspect_table`: `not notnull` and `bool(pk)`. */
  function InspectColumn(c: PragmaColumn): (r: ColumnInfo)
    ensures r.nullable <==> c.notNull == 0
    ensures r.primaryKey <==> c.pk != 0
    ensures r.name == c.name && r.colType == c.colType && r.default == c.default
  {
    ColumnInfo(c.name, c.colType, c.notNull == 0, c.default, c.pk != 0)
  }

  /** A row of `sqlite_master` for an index: its name and stored SQL (NULL for automatic indexes). */
  datatype IndexRow = IndexRow(name: string, sql: Option<string>)

  datatype IndexInfo = IndexInfo(name: string, definition: string)

  /** `[{name, definition} for i in indexes if i[1]]`: only indexes whose SQL is present and non-empty. */
  function InspectIndexes(rows: seq<IndexRow>): (r: seq<IndexInfo>)
    ensures |r| <= |rows|
    ensures forall ix <- r :: ix.definition != "" && IndexRow(ix.name, Some(ix.definition)) in rows
  {
    if rows == [] then []
    else
      (if rows[0].sql.Some? && rows[0].sql.value != "" then [IndexInfo(rows[0].name, rows[0].sql.value)] else [])
        + InspectIndexes(rows[1..])
  }

  /**
   An index is reported exactly when one of the rows has that name and a non-empty SQL text,
   and never more often than there are rows.
   */
  lemma {:induction false} InspectIndexesExact(rows: seq<IndexRow>, ix: IndexInfo)
    ensures |InspectIndexes(rows)| <= |rows|
    ensures ix in InspectIndexes(rows) <==> ix.definition != "" && IndexRow(ix.name, Some(ix.definition)) in rows
  {
    if rows != [] {
      InspectIndexesExact(rows[1..], ix);
      assert rows == [rows[0]] + rows[1..];
    }
  }

  /**
   The comprehension keeps order and multiplicity: one row yields its index exactly when its SQL
   is present and non-empty, and the rows of a concatenation yield the indexes of each part in
   turn.
   */
  lemma {:induction false} InspectIndexesInOrder(a: seq<IndexRow>, b: seq<IndexRow>, x: IndexRow)
    ensures InspectIndexes([x]) == if x.sql.Some? && x.sql.value != "" then [IndexInfo(x.name, x.sql.value)] else []
    ensures InspectIndexes(a + b) == InspectIndexes(a) + InspectIndexes(b)
  {
    assert [x][1..] == [];
    if a == [] {
      assert a + b == b;
    } else {
      var head := if a[0].sql.Some? && a[0].sql.value != "" then [IndexInfo(a[0].name, a[0].sql.value)] else [];
      assert (a + b)[0] == a[0];
      assert (a + b)[1..] == a[1..] + b;
      InspectIndexesInOrder(a[1..], b, x);
      calc {
        InspectIndexes(a + b);
        head + InspectIndexes(a[1..] + b);
        head + (InspectIndexes(a[1..]) + InspectIndexes(b));
        { ConcatAssoc(head, InspectIndexes(a[1..]), InspectIndexes(b)); }
        InspectIndexes(a) + InspectIndexes(b);
      }
    }
  }

  /** The result of `SQLiteAdapter.inspect_table`. */
  datatype TableInfo = TableInfo(table: string, rowCount: int, columns: seq<ColumnInfo>, indexes: seq<IndexInfo>)

  function SqliteInspect(table: string, pragma: seq<PragmaColumn>, rowCount: int, indexRows: seq<IndexRow>): (r: TableInfo)
    ensures r.table == table && r.rowCount == rowCount
    ensures |r.columns| == |pragma|
    ensures forall i :: 0 <= i < |pragma| ==> r.columns[i] == InspectColumn(pragma[i])
    ensures r.indexes == InspectIndexes(indexRows)
  {
    TableInfo(table, rowCount, seq(|pragma|, i requires 0 <= i < |pragma| => InspectColumn(pragma[i])), InspectIndexes(indexRows))
  }

  // ---------------------------------------------------------------------------------------
  // MySQL schema

  /** The DDL texts that are present, in order: the tables for which SHOW CREATE TABLE gave a row. */
  function PresentDdl(created: seq<Option<string>>): (r: seq<string>)
    ensures |r| <= |created|
    ensures forall ddl <- r :: Some(ddl) in created
  {
    if created == [] then []
    else
      var last := created[|created| - 1];
      PresentDdl(created[..|created| - 1]) + (if last.Some? then [last.value] else [])
  }

  /**
   A table whose SHOW CREATE TABLE returned a row contributes its text, and no other text
   appears; there are never more blocks than tables.
   */
  lemma {:induction false} PresentDdlExact(created: seq<Option<string>>, ddl: string)
    ensures |PresentDdl(created)| <= |created|
    ensures ddl in PresentDdl(created) <==> Some(ddl) in created
  {
    if created != [] {
      var init := created[..|created| - 1];
      PresentDdlExact(init, ddl);
      assert created == init + [created[|created| - 1]];
    }
  }

  /**
   The loop keeps order and multiplicity: one table contributes its text exactly when SHOW
   CREATE TABLE returned a row, and a concatenation contributes the texts of each part in turn.
   */
  lemma {:induction false} PresentDdlInOrder(a: seq<Option<string>>, b: seq<Option<string>>, x: Option<string>)
    ensures PresentDdl([x]) == if x.Some? then [x.value] else []
    ensures PresentDdl(a + b) == PresentDdl(a) + PresentDdl(b)
  {
    assert [x][..0] == [];
    if b == [] {
      assert a + b == a;
    } else {
      var init := b[..|b| - 1];
      var last := b[|b| - 1];
      var step := if last.Some? then [last.value] else [];
      assert (a + b)[..|a + b| - 1] == a + init;
      assert (a + b)[|a + b| - 1] == last;
      PresentDdlInOrder(a, init, x);
      calc {
        PresentDdl(a + b);
        PresentDdl(a + init) + step;
        (PresentDdl(a) + PresentDdl(init)) + step;
        { ConcatAssoc(PresentDdl(a), PresentDdl(init), step); }
        PresentDdl(a) + PresentDdl(b);
      }
    }
  }

  /**
   `MySQLAdapter.get_schema` after SHOW TABLES: `created[i]` is the second column of the row
   SHOW CREATE TABLE returned for the i-th table, or None when it returned none, which skips it.
   */
  method MySqlSchema(created: seq<Option<string>>) returns (ddl: string)
    ensures ddl == Join(PresentDdl(created), "\n\n")
  {
    var ddlStatements: seq<string> := [];
    for t := 0 to |created|
      invariant ddlStatements == PresentDdl(created[..t])
    {
      assert created[..t + 1][..t] == created[..t];
      var result := created[t];
      if result.Some? {
        ddlStatements := ddlStatements + [result.value];
      }
    }
    assert created[..|created|] == created;
    ddl := Join(ddlStatements, "\n\n");
  }
}
