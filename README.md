# Migration engine model

A Dafny model of a database migration tool that is served as a set of tools. The tool keeps
migration scripts in a directory as `{version}_{name}.up.sql` files. Each one can have a
`.down.sql` partner. It also keeps a ledger table, `schema_migrations`, with one row per
applied migration: version, name, the first 16 hex digits of the script's SHA-256 checksum,
and the execution time.

The model covers the following parts of the tool:

- **Catalog** (module `Catalog`). The directory scan that turns up-files into catalog entries:
  version, name, full version, file name and checksum, in file-name order. It also models the
  version lookup that apply and rollback use.
- **Ledger** (module `Ledger`). The ledger rows in version order, the INSERT written by an
  apply, the DELETE written by a rollback, and the current version.
- **Status** (module `Status`). The status report:
  - the pending and applied partition of the catalog;
  - drift detection, meaning an applied script whose checksum no longer matches its row;
  - the current version.
- **Engine** (modules `Engine` and `EngineProperties`). The engine class `MigrationEngine`, with
  apply, rollback and create, each with its guards, its dry run and its failure path. Each
  method is proved equal to a transition function (`ApplyStep`, `RollbackStep`, `CreateStep`).
  Their properties are proved as lemmas.
- **Authoring** (module `Authoring`). How create picks the next version, sanitises the name and
  lays out the file texts.
- **Adapters** (module `Adapters`). The database adapters, reduced to what the engine sees:
  - each dialect's placeholder;
  - how each dialect runs a script (natively, in one call, or split on `;`);
  - the Postgres DDL synthesis;
  - the SQLite schema and `inspect_table`;
  - the MySQL schema rule that skips missing tables.
- **Tools** (module `Tools`). The tool functions layered on the engine: `apply_all_pending`,
  `rollback_last`, the `run_query` safety guard, `read_migration_sql` and `check_drift`.
- **Legacy** (module `Legacy`). The older single-file server, `src/mcp_db_migrate.py`. It picks
  its adapter and its ledger placeholder from the `DB_TYPE` setting.

Text utilities the source borrows from Python (`split`, `strip`, `replace`, `upper`/`lower`,
`int`, `%03d` formatting) are in module `Text`.

## How it is modelled

The outside world enters as parameters:

- SHA-256 is a `digest` function fixed when the engine is constructed.
- Whether a script or a ledger write raises is an `Outcome`: `Done`, or `Raised(message)`.
- Elapsed milliseconds and timestamps are given values. `apply_all_pending` gets one per
  iteration.
- The rows a query returns are a `QueryReply`.

The database cursor is a class whose `calls` field records every statement sent to it. This is
how the model states which statements apply, rollback and `run_query` issue.

The migrations directory is a sorted sequence of `MigrationFile(filename, up, down)` values held
by the engine. The ledger is a version-ordered sequence of `Record`s.

`src/server.py:31-302` repeats the engine of `src/engine.py` line for line, so one `Engine`
model stands for both. `src/mcp_db_migrate.py:222-477` differs only where module `Legacy` says.

Where the program's own descriptions and its code disagree, the code is followed:

- The `rollback_last` docstring (`src/server.py:517`) promises to roll back "the most recently
  applied migration". The code reads the ledger `ORDER BY version` (`src/engine.py:56-60`) and
  takes its last row as the current version (`src/engine.py:134`). `rollback_last` itself
  takes the last applied entry in catalog order (`src/server.py:522-527`). So the model's
  current version is the greatest applied version, not the latest applied one
  (`Status.CurrentVersionIsGreatest`). "Greatest" is in code-point order, which is the order
  SQLite's default BINARY collation gives; other collations are listed under "Left out". The
  target of `rollback_last` can differ from the current version
  (`Tools.RollbackLastMissesOrphanCurrent`).
- The `run_query` docstring (`src/server.py:576`) lists six blocked keywords. The code's list
  also has `CREATE` (`src/server.py:585`). So a query that mentions `created_at` is refused
  (`Tools.CreatedAtIsBlocked`).

## Model

| member | source | states |
|---|---|---|
| Adapters.Placeholder | src/adapters.py:101-102 | The placeholder is `?` exactly for SQLite and `%s` for Postgres and MySQL (also src/adapters.py:208-209, 314-315) |
| Adapters.ExecuteEach | src/adapters.py:321-322 | One `execute` call per statement, in order, with the statement itself |
| Adapters.ScriptCalls | src/adapters.py:104-105 | Only SQLite uses `executescript`. SQLite and Postgres (src/adapters.py:211-212) send the script whole in one call; MySQL (src/adapters.py:317-322) sends only well-formed statements: non-empty, free of `;`, stripped |
| Adapters.ExecuteScriptOn | src/adapters.py:104-105 | Running a script appends exactly the calls the dialect makes: one `executescript` on SQLite, one `execute` on Postgres (src/adapters.py:211-212), one `execute` per split statement on MySQL (src/adapters.py:317-322) |
| Adapters.ExecuteEachOn | src/adapters.py:321-322 | The cursor's log grows by one `execute` per statement and by nothing else |
| Adapters.ApplyCalls | src/engine.py:169-177 | A completed apply sends the dialect's calls for the up-script in order, then one ledger INSERT with the dialect's placeholder; on SQLite and Postgres that is two calls, the first carrying the script |
| Adapters.RollbackCalls | src/engine.py:223-229 | A completed rollback sends the dialect's calls for the down-script in order, then one ledger DELETE with the dialect's placeholder; on SQLite and Postgres that is two calls, the first carrying the script |
| Adapters.ExecuteApplyOn | src/engine.py:169-177 | A completed apply sends the up-script as the dialect runs it, then the ledger INSERT with the dialect's placeholder, and nothing else |
| Adapters.ExecuteRollbackOn | src/engine.py:223-229 | A completed rollback sends the down-script as the dialect runs it, then the ledger DELETE with the dialect's placeholder, and nothing else |
| Adapters.Statements | src/adapters.py:320 | The comprehension never yields more statements than there are pieces |
| Adapters.StatementsFromPieces | src/adapters.py:320 | Every statement is a non-blank piece, stripped |
| Adapters.StatementsKeepPieces | src/adapters.py:320 | Every non-blank piece yields its stripped text as a statement |
| Adapters.StatementsInOrder | src/adapters.py:320 | The comprehension keeps order and multiplicity: one piece yields its stripped text when that is not blank and nothing otherwise, and a concatenation of pieces yields the statements of each part in turn |
| Adapters.StatementsWellFormed | src/adapters.py:320 | When no piece holds `;`, every kept statement is non-empty, has no `;` and has no surrounding whitespace |
| Adapters.SplitStatements | src/adapters.py:320 | Every statement of the MySQL split is non-empty, free of `;` and stripped, and the split loses only `;` and whitespace: the other characters of the statements, in order, are those of the script |
| Adapters.SplitStatementsSingle | src/adapters.py:320 | A script without `;` that is not blank is sent as one statement, itself stripped |
| Adapters.ColumnDef | src/adapters.py:147-152 | A column line is two spaces, the name and the type; then ` NOT NULL` exactly when is_nullable is "NO"; then ` DEFAULT <value>` at the end when the default is non-empty; its length leaves room for nothing else |
| Adapters.ColumnLineUnique | src/adapters.py:147-152 | Any line of that shape is `ColumnDef` of the column: the shape determines the line |
| Adapters.ColumnDefs | src/adapters.py:146-153 | One column line per column, in column order |
| Adapters.PostgresColumnLines | src/adapters.py:146-153 | The inner loop of `get_schema` builds exactly the column lines, one per row, in order |
| Adapters.TableDdl | src/adapters.py:155 | A block opens with `CREATE TABLE <table> (` and a newline, then holds the column lines in order with `,` and a newline between neighbours and nothing else, and ends with `);` on its own line |
| Adapters.TableBlockUnique | src/adapters.py:155 | Any text with that header, that layout of the column lines and that footer is the table's block |
| Adapters.TableDdlHoldsColumns | src/adapters.py:155 | Every column's line occurs in the table's block |
| Adapters.TableBlocks | src/adapters.py:134-156 | One `CREATE TABLE` block per table, in table order |
| Adapters.PostgresDdl | src/adapters.py:158 | The schema is the table blocks in table order with one blank line between neighbours and nothing else; it holds every table's block; no tables give the empty text |
| Adapters.PostgresSchema | src/adapters.py:123-158 | The loop builds exactly the synthesised DDL: the table blocks joined by blank lines |
| Adapters.EmptyTableDdl | src/adapters.py:155 | A table without columns still gets a `CREATE TABLE t (` block with an empty body |
| Adapters.SqliteSchema | src/adapters.py:56-61 | The schema is the stored `CREATE` statements in order with one blank line between neighbours and nothing else, so it holds every one of them; no tables give the empty text |
| Adapters.InspectColumn | src/adapters.py:67-76 | nullable holds iff the not-null flag is 0, primary_key holds iff pk is nonzero, and name, type and default are copied |
| Adapters.InspectIndexes | src/adapters.py:82-85 | Every reported index has a non-empty definition and comes from a row with that name and SQL; there are never more of them than rows |
| Adapters.InspectIndexesExact | src/adapters.py:82-85 | An index is reported iff it is in the query result with a non-empty definition |
| Adapters.InspectIndexesInOrder | src/adapters.py:82-85 | Indexes are reported in query order with their multiplicity: one row yields its index when its SQL is present and non-empty and nothing otherwise, and the rows of a concatenation yield the indexes of each part in turn |
| Adapters.SqliteInspect | src/adapters.py:63-87 | The table report keeps the table name and row count, has one column entry per pragma row in order, and the filtered indexes |
| Adapters.PresentDdl | src/adapters.py:239-243 | Every kept DDL text is one `SHOW CREATE TABLE` returned; there are never more of them than tables |
| Adapters.PresentDdlExact | src/adapters.py:239-243 | A DDL text is kept iff `SHOW CREATE TABLE` returned a row for it; tables without a row are skipped |
| Adapters.PresentDdlInOrder | src/adapters.py:239-243 | DDL texts are kept in table order with their multiplicity: one result yields its text when a row came back and nothing otherwise, and a concatenation yields the texts of each part in turn |
| Adapters.MySqlSchema | src/adapters.py:232-246 | The loop yields the kept DDL texts joined by blank lines |
| Catalog.ParseFilename | src/engine.py:83-87 | The full version is the file name with every `.up.sql` removed. The version holds no `_`. With a `_`, the full version is version + `_` + name; without one, the version is the whole stem and the name is empty |
| Catalog.FullVersionOfStem | src/engine.py:84 | A stem with no `.up.sql` in it is recovered exactly from its up-file name |
| Catalog.ParseFilenameRoundTrip | src/engine.py:83-87 | Parsing `{version}_{name}.up.sql` gives back that version and name when the version has no `_` |
| Catalog.SplitOnceUnique | src/engine.py:85-87 | The split at the first `_` is unique: equal full versions have equal versions and names |
| Catalog.Checksum | src/engine.py:48-50 | The checksum is the first 16 characters of the digest, or the whole digest when it is shorter |
| Catalog.ChecksumContentAddressed | src/engine.py:98 | Two files with the same up-script have the same checksum |
| Catalog.ScanFile | src/engine.py:92-101 | A catalog entry carries the parse of its file name, the file name, and the checksum of the up-script |
| Catalog.Entries | src/engine.py:82-101 | One entry per up-file, in file-name order |
| Catalog.Scan | src/engine.py:74-103 | A missing directory yields no entries; otherwise one entry per up-file, in order |
| Catalog.UpFileGlob | src/engine.py:79 | `IsUpFile`, the glob `*.up.sql`, matches `<stem>.up.sql` exactly when the stem is non-empty and does not start with a dot |
| Catalog.Lookup | src/engine.py:139-144 | The lookup by version fails iff no file has that version; when it succeeds, the file is in the directory and has that version |
| Catalog.LookupLastWins | src/engine.py:139 | Building the dictionary keeps the last file with a given version |
| Catalog.InsertFile | src/engine.py:258-261 | Writing a new up-file adds exactly that file to the directory |
| Catalog.InsertFileSorted | src/engine.py:82 | A new up-file with a fresh name keeps the directory sorted by file name |
| Catalog.DownFilename | src/engine.py:199 | The down path is never shorter than the up path; for an up-file whose stem holds no `.up.sql` it is the stem followed by `.down.sql`, beside the up-file |
| Ledger.Versions | src/engine.py:145 | The set of applied versions is exactly the versions of the ledger rows |
| Ledger.Insert | src/engine.py:174-177 | The INSERT grows the ledger by exactly one row |
| Ledger.InsertRows | src/engine.py:174-177 | The INSERT adds exactly the new row and keeps every other row: as a multiset, and with a membership iff |
| Ledger.Remove | src/engine.py:226-229 | The DELETE keeps exactly the rows of other versions |
| Ledger.InsertOrdered | src/engine.py:56-60 | Inserting a fresh version keeps the ledger in strict version order |
| Ledger.RemoveOrdered | src/engine.py:56-60 | Deleting a version keeps the ledger in strict version order |
| Ledger.InsertAddsOneRow | src/engine.py:174-177 | Inserting a fresh version keeps the order, adds that version to the applied set, and adds the record to the multiset of rows |
| Ledger.RemoveDeletesOneRow | src/engine.py:226-229 | Deleting removes exactly that version from the applied set and keeps every other row |
| Ledger.RemoveInsertRoundTrip | src/engine.py:226-229 | Deleting the version just inserted restores the ledger |
| Ledger.RemoveAbsent | src/engine.py:226-229 | Deleting a version that has no row changes nothing |
| Ledger.LastVersion | src/engine.py:134 | The current version is absent iff the ledger is empty, and is otherwise the version of the last row |
| Ledger.LastVersionIsGreatest | src/engine.py:56-60 | In a version-ordered ledger the last row's version is the greatest in code-point order (SQLite's BINARY collation) |
| Ledger.RecordedChecksum | src/engine.py:115 | There is a recorded checksum iff the version has a row, and it is that row's checksum |
| Ledger.RecordedChecksumOfRow | src/engine.py:115 | In an ordered ledger every row is the one the checksum dictionary keeps for its version |
| Status.PendingEntries | src/engine.py:111 | An entry is pending iff it is in the catalog and its version has no ledger row |
| Status.AppliedEntries | src/engine.py:112 | An entry is applied iff it is in the catalog and its version has a ledger row |
| Status.Partition | src/engine.py:111-112 | Pending and applied together are exactly the catalog, as a multiset |
| Status.FiltersKeepOrder | src/engine.py:111-112 | Both lists keep catalog order |
| Status.Drift | src/engine.py:116-128 | Every drift entry comes from an applied entry, and every applied entry whose checksum differs from its row's is reported |
| Status.DriftExact | src/engine.py:118-128 | An applied entry is reported with (recorded, current) checksums iff the two differ |
| Status.DriftSound | src/engine.py:118-128 | Each drift entry names a catalog entry and a ledger row of one version whose checksums differ |
| Status.DriftInOrder | src/engine.py:116-128 | Drift entries follow catalog order with their multiplicity: one entry yields its drift when its checksums differ and nothing otherwise, and a concatenation of entries yields the drift of each part in turn |
| Status.NoDriftWhenRestored | src/engine.py:115-128 | When every file's checksum equals its row's, no drift is reported |
| Status.DetectDrift | src/engine.py:116-128 | The loop collects exactly the drift list |
| Status.CurrentVersionIsGreatest | src/engine.py:134 | With rows present, the current version is applied and no row has a greater version in code-point order |
| Status.EmptyLedgerAllPending | src/engine.py:105-135 | With an empty ledger every entry is pending, none is applied, and there is no current version |
| Status.StatusOf | src/engine.py:105-135 | Every catalog entry is pending or applied, there is at most one drift entry per applied entry, and there is a current version iff the ledger has rows |
| Authoring.FirstInvalid | src/engine.py:249 | There is no invalid version iff every version is all digits; otherwise the reported one is a non-digit version of the catalog |
| Authoring.FirstInvalidIsFirst | src/engine.py:249 | The reported invalid version is the first in catalog order, the one `int()` fails on first |
| Authoring.MaxVersion | src/engine.py:249 | The maximum is at least every version's value and equals one of them |
| Authoring.ChooseVersion | src/engine.py:246-252 | An empty catalog gives "001"; a reported invalid version is a catalog version that is not all digits |
| Authoring.ChooseVersionFresh | src/engine.py:246-252 | A next version is chosen iff all versions are digits. It has at least 3 digits, is "001" (value 1) for an empty catalog, and otherwise is one more than the greatest and differs from every existing version |
| Authoring.ChooseVersionInvalid | src/engine.py:249 | A non-digit version makes create fail on the first such version |
| Authoring.SafeName | src/engine.py:255 | The safe name has the same length; each space or `-` becomes `_` and each other character is lower-cased |
| Authoring.SafeNameClean | src/engine.py:255 | A safe name holds no space, `-` or upper-case letter |
| Authoring.SafeNameIdempotent | src/engine.py:255 | Sanitising twice is sanitising once |
| Authoring.UpFileText | src/engine.py:261-266 | The up-file is the three header lines `-- Migration: <version>_<safe name>`, `-- Created: <timestamp>`, `-- Description: <name>`, then a blank line, the up-script and a newline, and nothing else |
| Authoring.DownFileText | src/engine.py:280-285 | The down-file is the two header lines `-- Rollback: <version>_<safe name>` and `-- Created: <timestamp>`, then a blank line, the down-script and a newline, and nothing else |
| Authoring.FileLayoutUnique | src/engine.py:261-266 | A header and a script determine the file text: two texts with the same layout are equal |
| Authoring.CreatedFileScanned | src/engine.py:258 | The created file name is an up-file name and scans back to the chosen version |
| Authoring.CreatedDownBeside | src/engine.py:278 | When the stem holds no `.up.sql`, the down file create writes is the one rollback looks for |
| Engine.Preview | src/engine.py:160 | A script of at most 500 characters is previewed whole; a longer one gives its first 500 characters followed by `...` |
| Engine.RecordFor | src/engine.py:174-176 | The ledger row carries the version, the elapsed time, and the scanned name and checksum of the file |
| Engine.ApplyStep | src/engine.py:137-189 | The ledger changes only on an `Applied` result of a real apply whose script completed; every successful response names the requested version |
| Engine.RollbackStep | src/engine.py:191-240 | The ledger changes only on a `RolledBack` result of a real rollback whose script completed; every successful response names the requested version, which was applied |
| Engine.CreateStep | src/engine.py:242-289 | A failed create leaves the directory as it was, and a missing directory always fails; a successful one reports the safe name and a down file iff down SQL was given |
| Engine.NewFile | src/engine.py:254-285 | The new up-file is the migration header (full name, creation time, description), a blank line, the up-script and a newline; it carries a down-script only when non-empty down SQL was given, laid out with the rollback header |
| Engine.MigrationEngine.constructor | src/engine.py:25-29 | A new engine holds the given dialect, digest and ledger; a missing directory is created empty |
| Engine.MigrationEngine.GetAppliedMigrations | src/engine.py:52-72 | Returns the ledger rows, in version order |
| Engine.MigrationEngine.GetAvailableMigrations | src/engine.py:74-103 | Returns the scan of the directory |
| Engine.MigrationEngine.GetStatus | src/engine.py:105-135 | Returns the status report of the scan against the ledger |
| Engine.MigrationEngine.Apply | src/engine.py:137-189 | The result and the new ledger are those of `ApplyStep`. Failures and dry runs send nothing to the cursor. A real apply sends the script, then the INSERT with the dialect's placeholder |
| Engine.MigrationEngine.RunApply | src/engine.py:163-189 | A raised outcome reports the error and keeps the ledger. A completed one reports the version, name and time and inserts the row |
| Engine.MigrationEngine.InsertRow | src/engine.py:174-177 | The INSERT of a fresh version keeps the ledger ordered and leaves the directory alone |
| Engine.MigrationEngine.Rollback | src/engine.py:191-240 | The result and the new ledger are those of `RollbackStep`. Failures and dry runs send nothing. A real rollback sends the down-script, then the DELETE |
| Engine.MigrationEngine.RunRollback | src/engine.py:219-240 | A raised outcome reports the error and keeps the ledger. A completed one reports `Rolled back <v>`, deletes that version's row and sends the down-script then the DELETE |
| Engine.MigrationEngine.DeleteRow | src/engine.py:226-229 | The DELETE keeps the ledger ordered and leaves the directory alone |
| Engine.MigrationEngine.Create | src/engine.py:242-289 | The result and the new directory are those of `CreateStep`, and the ledger is untouched |
| Engine.CreateKeepsSorted | src/engine.py:258-261 | Adding the created file keeps the directory sorted |
| Engine.LookupFindsEntry | src/engine.py:139-141 | Every catalog entry's version is found by the lookup |
| EngineProperties.ApplyGuardOrder | src/engine.py:139-161 | Guards in source order: an unknown version gives "not found", then an applied one gives "already applied". Dry runs and failures leave the ledger unchanged, and a real successful apply is an `Applied` result |
| EngineProperties.ApplyDryRunPreview | src/engine.py:154-161 | The dry run names the migration and previews the first 500 characters of its script, with `...` iff the script is longer |
| EngineProperties.ApplyAddsOneRow | src/engine.py:166-186 | A successful apply was of an unapplied version. It keeps the ledger ordered, adds exactly that version and adds exactly its record |
| EngineProperties.ApplyMovesToApplied | src/engine.py:111-112 | After a successful apply, the entries of that version move from pending to applied, and every other entry stays where it was |
| EngineProperties.ApplyAdvancesCurrentVersion | src/engine.py:134 | Applying a version above every recorded one makes it the current version |
| EngineProperties.InsertAtEnd | src/engine.py:56-60 | A version above every recorded one becomes the last ledger row |
| EngineProperties.RollbackGuardOrder | src/engine.py:193-217 | Guards in source order: not found, then a missing down file, then not applied. Dry runs and failures leave the ledger unchanged |
| EngineProperties.RollbackRemovesOneRow | src/engine.py:219-237 | A successful rollback was of an applied version. It removes exactly that version, keeps the other rows and makes its entries pending again |
| EngineProperties.ApplyThenRollback | src/engine.py:137-240 | Applying and then rolling back a migration that has a down file restores the ledger, with the message `Rolled back <v>` |
| EngineProperties.CreateAddsOneFile | src/engine.py:246-289 | A successful create picks the next version and the safe name, and reports a down file iff down SQL was given. It adds exactly one new file, keeps the directory sorted and keeps every old file, and the new file scans to the chosen version |
| EngineProperties.NewFileFresh | src/engine.py:246-258 | The created file name is new to the directory and its version is all digits |
| EngineProperties.CreateRoundTrip | src/engine.py:258-287 | The created file scans back to its version and safe name, holds the up text, and has the down text beside it iff down SQL was given (a down file already lying at that path is not modelled) |
| EngineProperties.CreateWritesNewFile | src/engine.py:258-287 | A successful create writes the file under the reported up-file name, which no old file had; the new directory holds exactly the old files and that one, whose up text is the migration header followed by the up-script |
| EngineProperties.CreateFailsOnBadVersion | src/engine.py:246-252 | A failed create leaves the directory unchanged. It fails on a bad version iff some version is not all digits, and a missing directory is an error |
| Tools.CountSuccess | src/server.py:492 | The applied count is at most the number of results, and equals it iff every result succeeded |
| Tools.CountSuccessAdds | src/server.py:492 | The applied count is the number of successful results: one result counts 1 iff it succeeded, and the count of a concatenation is the sum of the counts of its parts |
| Tools.RunSteps | src/server.py:481-488 | The loop yields at most one result per pending entry, at least one when there is any, and exactly one per entry in a dry run |
| Tools.ApplyAllPending | src/server.py:471-495 | The report's total is the number of pending entries at the start. Its results and the new ledger are those of applying them in order, stopping after the first real failure. Its applied count is the number of successes |
| Tools.ApplyInOrder | src/server.py:484-488 | The loop produces exactly the results and ledger of `ApplyEach` |
| Tools.ApplyEachNext | src/server.py:484-488 | One loop step: a real failure ends the batch; otherwise the batch goes on with the rest |
| Tools.ApplyEach | src/server.py:484-488 | A real run stops right after its first failure, and every earlier result succeeded. A dry run visits every pending entry and changes nothing |
| Tools.ApplyEachRows | src/server.py:484-488 | The batch keeps the ledger ordered and only adds versions, one row per success. Every applied result is recorded, and every new row is of a pending version |
| Tools.ApplyEachDryRun | src/server.py:484-488 | A dry run yields, for each pending entry, the preview of its script |
| Tools.ApplyAllDryRunPreviewsPending | src/server.py:481-495 | A dry run of the pending list previews each pending version in order, counts all of them as applied, and leaves the ledger unchanged |
| Tools.DuplicateVersionStops | src/server.py:484-488 | When two pending entries share a version, the second apply fails with "already applied" and stops the batch |
| Tools.RollbackLast | src/server.py:515-527 | The result and the new ledger are those of `RollbackLastStep` |
| Tools.RollbackLastStep | src/server.py:515-527 | The ledger changes only when a version is rolled back after its script completed, and a successful response names an applied version |
| Tools.LastApplied | src/server.py:526 | The last applied entry sits at a catalog position whose version is recorded, and no later catalog entry's version is |
| Tools.RollbackLastTarget | src/server.py:522-527 | "No migrations to rollback" iff no catalog entry is applied. Otherwise the target, the last applied entry, is recorded and its file is found. With a down file and a completed run, exactly its row goes |
| Tools.NothingAppliedIff | src/server.py:523-524 | The applied list is empty exactly when no catalog entry's version has a ledger row |
| Tools.RollbackLastPicks | src/server.py:526-527 | With something applied, the target's version is recorded and its file is found; with a down file and a completed run the response is `Rolled back <v>` and exactly that version leaves the ledger |
| Tools.RollbackLastMissesOrphanCurrent | src/server.py:522-527 | When the current version's file is gone, rollback_last targets a different version than the current one |
| Tools.FirstBlocked | src/server.py:587-592 | No keyword is reported iff none occurs in the text. Otherwise the reported one occurs, and no earlier keyword in the list does |
| Tools.BlockedKeyword | src/server.py:584-588 | No keyword is reported iff none of the seven occurs in the upper-cased query; a reported one is in the list and occurs |
| Tools.CheckQuery | src/server.py:584-592 | The loop finds exactly the first dangerous keyword in the upper-cased query |
| Tools.RunQuery | src/server.py:573-613 | A blocked query returns the safety message and sends nothing. Otherwise the query is executed once, and rows, the "no results" message or the driver's error are returned |
| Tools.BlockedIgnoresCase | src/server.py:586 | The guard ignores case |
| Tools.CreatedAtIsBlocked | src/server.py:585-588 | A query mentioning `created_at` is refused as `CREATE` |
| Tools.FirstMatch | src/server.py:436-440 | No match iff no entry's version or full version equals the key; otherwise the index is of a match with none before it |
| Tools.FirstMatchAt | src/server.py:436-440 | A match preceded by no other match is the one found |
| Tools.FindMigration | src/server.py:436-440 | The loop with `break` finds exactly the first match |
| Tools.ReadSql | src/server.py:422-451 | The answer is "Migration <key> not found", a "File not found: " message, or the up- or down-script of a file in the directory |
| Tools.ReadMigrationSql | src/server.py:422-451 | Returns exactly `ReadSql` of the directory |
| Tools.ReadUpIsScript | src/server.py:445-450 | Reading "up" returns the matched file's up-script, whose checksum is the one the catalog shows |
| Tools.ReadDownIsRollbackScript | src/server.py:445-451 | Any other direction returns the down-script, or "File not found:" with the down path when there is none |
| Tools.ReadNotFound | src/server.py:442-443 | An unknown key gives "Migration <key> not found" |
| Tools.DriftDetectedExactly | src/server.py:625-637 | Drift is flagged iff some catalog entry and ledger row of one version have different checksums; the details are then the drift list |
| Tools.CheckDrift | src/server.py:624-637 | Drift is flagged iff the status drift list is non-empty, and the details are present exactly then and are that list |
| Tools.DriftNonEmptyIff | src/engine.py:115-128 | The drift list is non-empty exactly when some catalog entry and ledger row of one version have different checksums |
| Tools.DriftClearedWhenRestored | src/server.py:633-637 | When every checksum matches its row, no drift is reported |
| Legacy.LegacyBackend | src/mcp_db_migrate.py:479-484 | Postgres iff the setting is "postgres", otherwise SQLite, never MySQL |
| Legacy.LegacyPlaceholder | src/mcp_db_migrate.py:368-373 | As written: `?` iff the setting is "sqlite", otherwise `%s` (also src/mcp_db_migrate.py:418-422) |
| Legacy.LegacyScriptCall | src/mcp_db_migrate.py:364 | The script is sent as it is, with `executescript` for every setting but "postgres" |
| Legacy.LegacyScriptCallAgrees | src/mcp_db_migrate.py:364 | The `executescript`-if-present dispatch sends the script as the chosen adapter would |
| Legacy.LegacyApplyCalls | src/mcp_db_migrate.py:364-373 | As written: two calls, the script (by `executescript` for every setting but "postgres") and then the INSERT, whose placeholder is `?` only for "sqlite" |
| Legacy.LegacyRollbackCalls | src/mcp_db_migrate.py:416-422 | As written: two calls, the down-script (dispatched as on apply) and then the DELETE, whose placeholder is `?` only for "sqlite" |
| Legacy.LegacyPlaceholderMatchesIff | src/mcp_db_migrate.py:368-373 | The written placeholder matches the adapter in use iff the setting is "sqlite" or "postgres" |
| Legacy.MysqlSettingSendsPercentS | src/mcp_db_migrate.py:368-373 | With "mysql" the script runs on SQLite, but the INSERT carries `%s` and so differs from the INSERT the SQLite adapter sends, which carries `?` |
| Legacy.LedgerPlaceholder | src/mcp_db_migrate.py:479-484 | Corrected: the placeholder of the adapter actually chosen, equal to the written one for the two documented settings |
| Legacy.CorrectedCallsMatchEngine | src/mcp_db_migrate.py:333-428 | With the corrected placeholder, apply and rollback send exactly the calls of the main engine for every setting |
| Legacy.DocumentedSettingsAgree | src/mcp_db_migrate.py:368-373 | For "sqlite" and "postgres", the code as written already sends those calls |
| Text.Take | src/engine.py:160 | `s[:n]` is the prefix of length n, or all of s when it is shorter (also src/engine.py:50) |
| Text.SplitOnce | src/engine.py:85-87 | `split(c, 1)`: the head holds no c; there is a tail iff s holds a c, and then s is head + c + tail; otherwise the head is s |
| Text.SplitAll | src/adapters.py:320 | `split(c)`: at least one piece, no piece holds c, and joining the pieces with c gives back s |
| Text.ReplaceAllSuffix | src/engine.py:84 | Replacing a border-free suffix of a text whose stem holds no occurrence replaces exactly that suffix (also src/engine.py:199) |
| Text.ReplaceAllPrefix | src/engine.py:84 | A leading part without the pattern's first character is copied through by replace |
| Text.ReplaceAllAbsent | src/engine.py:84 | A text without an occurrence of the pattern is left as it is |
| Text.ReplaceAllSelf | src/server.py:446 | Replacing a pattern by itself changes nothing, so the "up" path is the up-file itself |
| Text.ReplaceAllLonger | src/engine.py:199 | Replacing by a longer text never shortens, and lengthens whenever there is an occurrence |
| Text.ReplaceAllChar | src/engine.py:255 | Replacing one character by another keeps the length and maps each position independently |
| Text.Strip | src/adapters.py:320 | `strip()` gives a slice of s; it is empty iff s is all whitespace, and otherwise starts and ends with a non-space |
| Text.Lower | src/engine.py:255 | `lower()` keeps the length, lower-cases each ASCII letter, and leaves no upper-case ASCII letter |
| Text.Upper | src/server.py:586 | `upper()` keeps the length, upper-cases each ASCII letter, and leaves no lower-case ASCII letter |
| Text.Pad3RoundTrip | src/engine.py:249-250 | `f"{n:03d}"` is a digit string of at least three characters that `int()` reads back as n, exactly three for n below 1000 |
| Text.ParseNatLeadingZeros | src/engine.py:249 | `int()` ignores leading zeros, so "001" reads as 1 |
| Text.JoinParts | src/adapters.py:155 | `sep.join(parts)` is laid out as the parts in order, each at its offset, with one separator between neighbours and nothing else, and holds every part (also src/adapters.py:61, 158) |
| Text.JoinLayoutUnique | src/adapters.py:155 | Only the join has that layout: the layout determines the text (also src/adapters.py:61, 158) |
| Text.LessTotal | src/engine.py:59 | Code-point order on distinct strings is total (with `LessIrreflexive` and `LessTransitive`, a strict order) |

## Left out

- Database drivers, connections, transactions and SQL semantics are left out. What a script or
  ledger write does is the `Outcome` parameter, and what a query returns is the `QueryReply`
  parameter. The row values are a type parameter.
- Engine.MigrationEngine.Apply: the calls sent when the script or the INSERT raises are not
  pinned down, since the driver may have run part of them. The ledger and the result are stated.
- Engine.MigrationEngine.Rollback: the same holds for a raised rollback.
- SHA-256 and hex encoding are a `digest` parameter. The 16-character truncation is modelled.
- Clocks are left out. Timestamps (`datetime.now().isoformat()`, `applied_at`) and elapsed
  milliseconds are parameters.
- Paths are modelled as file names within one directory. `read_migration_sql` and rollback
  replace `.up.sql` in the whole path, so a directory name holding `.up.sql` is not modelled.
- Names containing path separators are not modelled.
- A `.down.sql` file that already lies at a new migration's down path is not modelled: in the
  model a migration has a down-script only when create writes one. In the source, a create
  without down SQL leaves such a file in place (src/engine.py:276-287), and a rollback of the
  new migration would run it (src/engine.py:199-209); the model answers "Rollback file not
  found" instead.
- The ledger's version order is code-point order, the order SQLite's default BINARY collation
  gives `ORDER BY version`. Postgres under a non-C locale and MySQL's case-insensitive default
  collation can order versions that hold letters differently ("a2" before "B1"), so there the
  current version can differ from the model's. Versions of ASCII digits, as create writes
  them, are not affected.
- File text is modelled as the text Python reads back, with newline translation. The source
  reads every script in text mode, which turns `\r\n` and `\r` into `\n` (src/engine.py:89-90,
  151-152 and 208-209; src/server.py:449-450), but create writes `up_sql` and `down_sql` as given
  (src/engine.py:265, 284). A created file equals `UpFileText`/`DownFileText`, and its checksum
  and preview are those of that text, only for scripts without `\r`.
- `_init_history_table`'s `CREATE TABLE` is left out. The ledger is given, and the directory is
  created by the constructor.
- `lower()` and `upper()` are modelled for ASCII letters only. Python's full Unicode case
  mapping is left out.
- `int()` is modelled on strings of ASCII digits only. Python also accepts signs, surrounding
  whitespace, underscores and non-ASCII digits; such versions are treated as invalid here.
- The schema and table-listing queries of Postgres and MySQL are left out, except the DDL
  synthesis and the skip rule: `inspect_table`, `list_tables`, and the SQLite `list_tables`.
  The rows they return are given.
- The MCP server framework, JSON rendering of the legacy tools, logging, and the resource and
  prompt functions are left out (`resource_migration_status`, `resource_current_schema`,
  `explain_migration`).
- `test_connection` and `inspect_schema` are left out: they only forward to the adapter.
- `migration_status`, `list_pending_migrations`, `apply_migration` and `rollback_migration`
  are left out: they only forward to the engine methods above.
- Concurrent access to the directory and the database is left out.

## Findings

| source | as written | input that shows it | evidently intended | confidence | as-written member | corrected member |
|---|---|---|---|---|---|---|
| src/mcp_db_migrate.py:368-373 | The ledger INSERT and DELETE use `?` only when `DB_TYPE` is "sqlite" and `%s` otherwise, while `create_adapter` (src/mcp_db_migrate.py:479-484) picks SQLite for every setting but "postgres" | `DB_TYPE="mysql"`: the script runs on SQLite, then the INSERT with `%s` is rejected, so the migration's effects stay but no ledger row is written | Use the placeholder of the adapter actually chosen, as src/engine.py:173 does | not executed | Legacy.MysqlSettingSendsPercentS | Legacy.CorrectedCallsMatchEngine |
