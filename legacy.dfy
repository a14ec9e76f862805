/**
 The older single-file server, src/mcp_db_migrate.py. Its engine is the one of src/engine.py in
 all but two places: the adapter is chosen from the `DB_TYPE` setting (Postgres for "postgres",
 SQLite for anything else), and the ledger INSERT and DELETE pick their placeholder from the same
 setting (`?` for "sqlite", `%s` for anything else) instead of asking the adapter. The script
 itself goes through `executescript` when the cursor has one (SQLite's does) and through a
 single `execute` otherwise.
 */
module Legacy {
  import opened Adapters

  /** `create_adapter`: Postgres exactly for "postgres", SQLite for every other setting. */
  function LegacyBackend(dbType: string): (d: Dialect)
    ensures d != MySQL
    ensures d == Postgres <==> dbType == "postgres"
  {
    if dbType == "postgres" then Postgres else SQLite
  }

  /** The ledger placeholder as written: `?` exactly for "sqlite", `%s` for every other setting. */
  function LegacyPlaceholder(dbType: string): (p: string)
    ensures p == "?" <==> dbType == "sqlite"
    ensures p != "?" ==> p == "%s"
  {
    if dbType == "sqlite" then "?" else "%s"
  }

  /** The script call: `executescript` on an SQLite cursor, one `execute` on any other. */
  function LegacyScriptCall(dbType: string, script: string): (c: Call)
    ensures c.sql == script
    ensures c.ExecuteScript? <==> dbType != "postgres"
  {
    if LegacyBackend(dbType) == SQLite then ExecuteScript(script) else Execute(script)
  }

  /**
   The calls a normal apply makes, as written: the script, by `executescript` for every setting
   but "postgres", then the INSERT, whose placeholder is `?` only for the setting "sqlite".
   */
  function LegacyApplyCalls(dbType: string, script: string): (r: seq<Call>)
    ensures |r| == 2 && r[0].sql == script
    ensures r[0].ExecuteScript? <==> dbType != "postgres"
    ensures r[1] == Execute(LedgerInsertSql(if dbType == "sqlite" then "?" else "%s"))
  {
    [LegacyScriptCall(dbType, script), Execute(LedgerInsertSql(LegacyPlaceholder(dbType)))]
  }

  /**
   The calls a normal rollback makes, as written: the down-script, dispatched as on apply, then
   the DELETE, whose placeholder is `?` only for the setting "sqlite".
   */
  function LegacyRollbackCalls(dbType: string, script: string): (r: seq<Call>)
    ensures |r| == 2 && r[0].sql == script
    ensures r[0].ExecuteScript? <==> dbType != "postgres"
    ensures r[1] == Execute(LedgerDeleteSql(if dbType == "sqlite" then "?" else "%s"))
  {
    [LegacyScriptCall(dbType, script), Execute(LedgerDeleteSql(LegacyPlaceholder(dbType)))]
  }

  /** The `hasattr` dispatch sends the script exactly as the chosen adapter's `execute_script` would. */
  lemma LegacyScriptCallAgrees(dbType: string, script: string)
    ensures [LegacyScriptCall(dbType, script)] == ScriptCalls(LegacyBackend(dbType), script)
  {
  }

  /**
   The placeholder as written matches the adapter in use exactly for the two documented
   settings; any other setting (say "mysql") runs SQLite with `%s`.
   */
  lemma LegacyPlaceholderMatchesIff(dbType: string)
    ensures LegacyPlaceholder(dbType) == Placeholder(LegacyBackend(dbType)) <==> dbType == "sqlite" || dbType == "postgres"
  {
  }

  /**
   With `DB_TYPE` set to "mysql" the script runs on SQLite, and then the ledger INSERT goes out
   with `%s` markers. That is not the INSERT the SQLite adapter's own placeholder gives, which
   uses `?`. SQL is not modelled, so that sqlite3 then rejects the INSERT, leaving the script's
   effects without a ledger row, is not stated here.
   */
  lemma MysqlSettingSendsPercentS(script: string)
    ensures LegacyBackend("mysql") == SQLite && LegacyPlaceholder("mysql") == "%s"
    ensures LegacyApplyCalls("mysql", script)[1] == Execute(LedgerInsertSql("%s"))
    ensures LegacyApplyCalls("mysql", script)
      != ApplyCalls(SQLite, script)
  {
    assert LedgerInsertSql("%s") != LedgerInsertSql("?") by {
      var prefix := "INSERT INTO schema_migrations (version, name, checksum, execution_time_ms) VALUES (";
      assert LedgerInsertSql("%s")[|prefix|] == '%';
      assert LedgerInsertSql("?")[|prefix|] == '?';
    }
  }

  /** The corrected placeholder: the one of the adapter `create_adapter` actually chose. */
  function LedgerPlaceholder(dbType: string): (p: string)
    ensures p == Placeholder(LegacyBackend(dbType))
    ensures dbType == "sqlite" || dbType == "postgres" ==> p == LegacyPlaceholder(dbType)
  {
    Placeholder(LegacyBackend(dbType))
  }

  /**
   With the corrected placeholder the older engine sends, for every setting, exactly the calls
   the engine of src/engine.py sends with the chosen adapter, on apply and on rollback.
   */
  lemma CorrectedCallsMatchEngine(dbType: string, script: string)
    ensures [LegacyScriptCall(dbType, script), Execute(LedgerInsertSql(LedgerPlaceholder(dbType)))]
      == ApplyCalls(LegacyBackend(dbType), script)
    ensures [LegacyScriptCall(dbType, script), Execute(LedgerDeleteSql(LedgerPlaceholder(dbType)))]
      == RollbackCalls(LegacyBackend(dbType), script)
  {
    var d := LegacyBackend(dbType);
    LegacyScriptCallAgrees(dbType, script);
    assert ApplyCalls(d, script) == [LegacyScriptCall(dbType, script)] + [Execute(LedgerInsertSql(Placeholder(d)))];
    assert RollbackCalls(d, script) == [LegacyScriptCall(dbType, script)] + [Execute(LedgerDeleteSql(Placeholder(d)))];
  }

  /** For the two documented settings, the code as written already sends those calls. */
  lemma DocumentedSettingsAgree(dbType: string, script: string)
    requires dbType == "sqlite" || dbType == "postgres"
    ensures LegacyApplyCalls(dbType, script)
      == ApplyCalls(LegacyBackend(dbType), script)
    ensures LegacyRollbackCalls(dbType, script)
      == RollbackCalls(LegacyBackend(dbType), script)
  {
    CorrectedCallsMatchEngine(dbType, script);
  }
}
