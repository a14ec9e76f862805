/**
 `MigrationEngine` of src/engine.py (the same class appears again in src/server.py and, with
 the differences kept in module Legacy, in src/mcp_db_migrate.py). The engine owns a migrations
 directory and a ledger. Every operation rebuilds the catalog from the directory and the applied
 list from the ledger and compares the two. Apply and rollback are guarded transitions that
 insert or delete exactly one ledger row; create writes new files and never touches the ledger.

 Each transition is stated first as a specification function (ApplyStep, RollbackStep,
 CreateStep) from the old state to the response and the new state. The class methods are
 proved against those functions, and the lemmas prove what the source promises about them.
 */
module Engine {
  import opened Wrappers
  import opened Text
  import opened Adapters
  import opened Catalog
  import opened Ledger
  import opened Status
  import opened Authoring

  /**
   How running the script and writing the ledger row ended: normally, or with an exception
   whose text is `message`. The driver is not modelled, so this is an input.
   */
  datatype Outcome = Done | Raised(message: string)

  /** The dictionaries apply and rollback return. */
  datatype Response =
    | Failure(error: string)
    | ScriptFailed(version: string, error: string)
    | ApplyPreview(version: string, name: string, sqlPreview: string)
    | Applied(version: string, name: string, executionTimeMs: nat)
    | RollbackPreview(version: string, sqlPreview: string)
    | RolledBack(version: string, message: string)
  {
    /** The `success` key. */
    predicate Success()
    {
      !Failure? && !ScriptFailed?
    }
  }

  /** A response together with the ledger it leaves behind. */
  datatype Step = Step(response: Response, ledger: seq<Record>)

  function NotFoundMessage(version: string): string
  {
    "Migration " + version + " not found"
  }

  function AlreadyAppliedMessage(version: string): string
  {
    "Migration " + version + " already applied"
  }

  function NotAppliedMessage(version: string): string
  {
    "Migration " + version + " is not applied"
  }

  function DownMissingMessage(path: string): string
  {
    "Rollback file not found: " + path
  }

  /** The dry-run preview: the first 500 characters, and "..." when anything was cut. */
  function Preview(script: string): (p: string)
    ensures |script| <= 500 ==> p == script
    ensures |script| > 500 ==> |p| == 503 && p[..500] == script[..500] && p[500..] == "..."
  {
    Take(script, 500) + (if |script| > 500 then "..." else "")
  }

  /** The row a successful apply records for `f`: its name and checksum from the catalog. */
  function RecordFor(digest: string -> string, f: MigrationFile, version: string, appliedAt: string, elapsedMs: nat): (rec: Record)
    ensures rec.version == version && rec.executionTimeMs == elapsedMs
    ensures rec.name == ScanFile(digest, f).name && rec.checksum == ScanFile(digest, f).checksum
  {
    Record(version, ParseFilename(f.filename).name, Checksum(digest, f.up), appliedAt, elapsedMs)
  }

  /**
   `apply_migration`: not found, then already applied, then the dry-run preview; otherwise the
   up-script runs and, when it ends normally, one row is inserted.
   */
  function ApplyStep(digest: string -> string, files: seq<MigrationFile>, ledger: seq<Record>, version: string,
                     dryRun: bool, outcome: Outcome, elapsedMs: nat, appliedAt: string): (r: Step)
    ensures r.ledger != ledger ==> r.response.Applied? && !dryRun && outcome.Done?
    ensures r.response.Success() ==> r.response.version == version
  {
    match Lookup(files, version)
    case None => Step(Failure(NotFoundMessage(version)), ledger)
    case Some(f) =>
      var name := ParseFilename(f.filename).name;
      if version in Versions(ledger) then Step(Failure(AlreadyAppliedMessage(version)), ledger)
      else if dryRun then Step(ApplyPreview(version, name, Preview(f.up)), ledger)
      else match outcome
        case Raised(msg) => Step(ScriptFailed(version, msg), ledger)
        case Done => Step(Applied(version, name, elapsedMs), Insert(ledger, RecordFor(digest, f, version, appliedAt, elapsedMs)))
  }

  /**
   `rollback_migration`: not found, then the down-file missing, then not applied, then the
   dry-run preview; otherwise the down-script runs and, when it ends normally, the row goes.
   */
  function RollbackStep(files: seq<MigrationFile>, ledger: seq<Record>, version: string, dryRun: bool, outcome: Outcome): (r: Step)
    ensures r.ledger != ledger ==> r.response.RolledBack? && !dryRun && outcome.Done?
    ensures r.response.Success() ==> r.response.version == version && version in Versions(ledger)
  {
    match Lookup(files, version)
    case None => Step(Failure(NotFoundMessage(version)), ledger)
    case Some(f) =>
      match f.down
      case None => Step(Failure(DownMissingMessage(DownFilename(f.filename))), ledger)
      case Some(down) =>
        if version !in Versions(ledger) then Step(Failure(NotAppliedMessage(version)), ledger)
        else if dryRun then Step(RollbackPreview(version, Preview(down)), ledger)
        else match outcome
          case Raised(msg) => Step(ScriptFailed(version, msg), ledger)
          case Done => Step(RolledBack(version, "Rolled back " + version), Remove(ledger, version))
  }

  /** Why `create_migration` raised instead of returning. */
  datatype CreateError = BadVersion(text: string) | NoDirectory

  /** The dictionary `create_migration` returns, or the exception it raises. */
  datatype CreateResult =
    | Created(version: string, name: string, upFile: string, downFile: Option<string>)
    | CreateFailed(reason: CreateError)

  /** The down-script the author gave, when `if down_sql:` accepts it. */
  predicate HasDownSql(downSql: Option<string>)
  {
    downSql.Some? && downSql.value != ""
  }

  /**
   `create_migration`: the version from the catalog, the sanitised name, the up-file with its
   header, and the down-file only for a non-empty down-script. The down-file sits beside the
   up-file (where rollback looks) unless the name itself holds `.up.sql`.
   */
  function CreateStep(digest: string -> string, dir: Directory, name: string, upSql: string, downSql: Option<string>,
                      upCreatedAt: string, downCreatedAt: string): (r: (CreateResult, Directory))
    ensures r.0.CreateFailed? ==> r.1 == dir
    ensures dir.Missing? ==> r.0.CreateFailed?
    ensures r.0.Created? ==> r.0.name == SafeName(name) && (r.0.downFile.Some? <==> HasDownSql(downSql))
  {
    match ChooseVersion(Scan(digest, dir))
    case InvalidVersion(bad) => (CreateFailed(BadVersion(bad)), dir)
    case NextVersion(version) =>
      if dir.Missing? then (CreateFailed(NoDirectory), dir)
      else
        var safe := SafeName(name);
        (Created(version, safe, UpFilename(version, safe), if HasDownSql(downSql) then Some(DownFilenameOf(version, safe)) else None),
         Present(InsertFile(dir.files, NewFile(version, name, upSql, downSql, upCreatedAt, downCreatedAt))))
  }

  /**
   The migration the authoring step writes, as the scan will see it: the up-file, and the
   down-script when there is one and it sits where rollback looks.
   */
  function NewFile(version: string, name: string, upSql: string, downSql: Option<string>,
                   upCreatedAt: string, downCreatedAt: string): (r: MigrationFile)
    ensures FileLayout(r.up, UpHeader(version, SafeName(name), name, upCreatedAt), upSql)
    ensures r.down.Some? ==>
      && HasDownSql(downSql)
      && FileLayout(r.down.value, DownHeader(version, SafeName(name), downCreatedAt), downSql.value)
  {
    var safe := SafeName(name);
    var upFile := UpFilename(version, safe);
    var downText := if HasDownSql(downSql) then Some(DownFileText(version, safe, downCreatedAt, downSql.value)) else None;
    var beside := if DownFilename(upFile) == DownFilenameOf(version, safe) then downText else None;
    MigrationFile(upFile, UpFileText(version, safe, name, upCreatedAt, upSql), beside)
  }

  /** The engine: its backend, the digest behind the checksum, the directory and the ledger. */
  class MigrationEngine {
    const dialect: Dialect
    const digest: string -> string
    var directory: Directory
    var ledger: seq<Record>

    /** The directory lists up-files in name order; the ledger has unique versions in order. */
    predicate Valid()
      reads this
    {
      (directory.Present? ==> Sorted(directory.files)) && Ordered(ledger)
    }

    /** The files in the directory, none when it is missing. */
    function Files(): seq<MigrationFile>
      reads this
    {
      if directory.Present? then directory.files else []
    }

    /** `get_available_migrations`, as a value. */
    function Available(): seq<Entry>
      reads this
    {
      Scan(digest, directory)
    }

    /** `__init__`: the directory is created when missing; an existing ledger is kept. */
    constructor (dialect: Dialect, digest: string -> string, dir: Directory, ledger: seq<Record>)
      requires Ordered(ledger) && (dir.Present? ==> Sorted(dir.files))
      ensures Valid()
      ensures this.dialect == dialect && this.digest == digest && this.ledger == ledger
      ensures directory == if dir.Missing? then Present([]) else dir
    {
      this.dialect := dialect;
      this.digest := digest;
      this.directory := if dir.Missing? then Present([]) else dir;
      this.ledger := ledger;
    }

    /** `get_applied_migrations`: the ledger rows, in ascending version order. */
    method GetAppliedMigrations() returns (rows: seq<Record>)
      requires Valid()
      ensures rows == ledger && Ordered(rows)
    {
      rows := ledger;
    }

    /** `get_available_migrations`: one entry per up-file, built file by file. */
    method GetAvailableMigrations() returns (migrations: seq<Entry>)
      ensures migrations == Available()
    {
      if directory.Missing? {
        return [];
      }
      var files := directory.files;
      migrations := [];
      for i := 0 to |files|
        invariant migrations == Entries(digest, files[..i])
      {
        assert files[..i + 1][..i] == files[..i];
        migrations := migrations + [ScanFile(digest, files[i])];
      }
      assert files[..|files|] == files;
    }

    /** `get_status`. */
    method GetStatus() returns (status: Report)
      ensures status == StatusOf(Available(), ledger)
    {
      var appliedList := ledger;
      var versions := Versions(appliedList);
      var available := GetAvailableMigrations();
      var pending := PendingEntries(available, versions);
      var applied := AppliedEntries(available, versions);
      var drift := DetectDrift(applied, appliedList);
      status := Report(pending, applied, drift, LastVersion(appliedList));
    }

    /**
     `apply_migration`. The cursor receives nothing unless the script runs; a normal end sends
     the script and then the INSERT with the dialect's placeholder.
     */
    method Apply(version: string, dryRun: bool, cursor: Cursor, outcome: Outcome, elapsedMs: nat, appliedAt: string)
      returns (r: Response)
      requires Valid()
      modifies this, cursor
      ensures Valid() && directory == old(directory)
      ensures Step(r, ledger) == ApplyStep(digest, Files(), old(ledger), version, dryRun, outcome, elapsedMs, appliedAt)
      ensures r.Failure? || r.ApplyPreview? ==> cursor.calls == old(cursor.calls)
      ensures r.Applied? ==> cursor.calls == old(cursor.calls) + ApplyCalls(dialect, Lookup(Files(), version).value.up)
    {
      var found := Lookup(Files(), version);
      if found.None? {
        return Failure(NotFoundMessage(version));
      }
      var migration := ScanFile(digest, found.value);
      if version in Versions(ledger) {
        return Failure(AlreadyAppliedMessage(version));
      }
      var script := found.value.up;
      if dryRun {
        return ApplyPreview(version, migration.name, Preview(script));
      }
      ghost var files := Files();
      r := RunApply(found.value, version, cursor, outcome, elapsedMs, appliedAt);
      assert Files() == files;
      assert r.Applied? ==> outcome.Done?;
    }

    /** The part of apply that runs the up-script and records the row. */
    method RunApply(f: MigrationFile, version: string, cursor: Cursor, outcome: Outcome, elapsedMs: nat, appliedAt: string)
      returns (r: Response)
      requires Valid() && version !in Versions(ledger)
      modifies this, cursor
      ensures Valid() && directory == old(directory)
      ensures outcome.Raised? ==> r == ScriptFailed(version, outcome.message) && ledger == old(ledger)
      ensures outcome.Done? ==> r == Applied(version, ParseFilename(f.filename).name, elapsedMs)
      ensures outcome.Done? ==> ledger == Insert(old(ledger), RecordFor(digest, f, version, appliedAt, elapsedMs))
      ensures outcome.Done? ==> cursor.calls == old(cursor.calls) + ApplyCalls(dialect, f.up)
    {
      match outcome {
        case Raised(msg) =>
          ExecuteScriptOn(dialect, cursor, f.up);
          r := ScriptFailed(version, msg);
        case Done =>
          ExecuteApplyOn(dialect, cursor, f.up);
          var rec := RecordFor(digest, f, version, appliedAt, elapsedMs);
          InsertRow(rec);
          r := Applied(version, rec.name, elapsedMs);
      }
    }

    /** The ledger INSERT of a successful apply. */
    method InsertRow(rec: Record)
      requires Valid() && rec.version !in Versions(ledger)
      modifies this
      ensures Valid() && directory == old(directory)
      ensures ledger == Insert(old(ledger), rec)
    {
      InsertAddsOneRow(ledger, rec);
      ledger := Insert(ledger, rec);
    }

    /**
     `rollback_migration`. The cursor receives nothing unless the down-script runs; a normal end
     sends the script and then the DELETE with the dialect's placeholder.
     */
    method Rollback(version: string, dryRun: bool, cursor: Cursor, outcome: Outcome) returns (r: Response)
      requires Valid()
      modifies this, cursor
      ensures Valid() && directory == old(directory)
      ensures Step(r, ledger) == RollbackStep(Files(), old(ledger), version, dryRun, outcome)
      ensures r.Failure? || r.RollbackPreview? ==> cursor.calls == old(cursor.calls)
      ensures r.RolledBack? ==> cursor.calls == old(cursor.calls) + RollbackCalls(dialect, Lookup(Files(), version).value.down.value)
    {
      var found := Lookup(Files(), version);
      if found.None? {
        return Failure(NotFoundMessage(version));
      }
      var downPath := DownFilename(found.value.filename);
      if found.value.down.None? {
        return Failure(DownMissingMessage(downPath));
      }
      var appliedList := GetAppliedMigrations();
      if version !in Versions(appliedList) {
        return Failure(NotAppliedMessage(version));
      }
      var script := found.value.down.value;
      if dryRun {
        return RollbackPreview(version, Preview(script));
      }
      ghost var files := Files();
      r := RunRollback(script, version, cursor, outcome);
      assert Files() == files;
      assert r.RolledBack? ==> outcome.Done?;
    }

    /** The part of rollback that runs the down-script and deletes the row. */
    method RunRollback(script: string, version: string, cursor: Cursor, outcome: Outcome) returns (r: Response)
      requires Valid()
      modifies this, cursor
      ensures Valid() && directory == old(directory)
      ensures outcome.Raised? ==> r == ScriptFailed(version, outcome.message) && ledger == old(ledger)
      ensures outcome.Done? ==> r == RolledBack(version, "Rolled back " + version) && ledger == Remove(old(ledger), version)
      ensures outcome.Done? ==> cursor.calls == old(cursor.calls) + RollbackCalls(dialect, script)
    {
      match outcome {
        case Raised(msg) =>
          ExecuteScriptOn(dialect, cursor, script);
          r := ScriptFailed(version, msg);
        case Done =>
          ExecuteRollbackOn(dialect, cursor, script);
          DeleteRow(version);
          r := RolledBack(version, "Rolled back " + version);
      }
    }

    /** The ledger DELETE of a successful rollback. */
    method DeleteRow(version: string)
      requires Valid()
      modifies this
      ensures Valid() && directory == old(directory)
      ensures ledger == Remove(old(ledger), version)
    {
      RemoveDeletesOneRow(ledger, version);
      ledger := Remove(ledger, version);
    }

    /** `create_migration`: writes the new files; the ledger is never touched. */
    method Create(name: string, upSql: string, downSql: Option<string>, upCreatedAt: string, downCreatedAt: string)
      returns (r: CreateResult)
      requires Valid()
      modifies this
      ensures Valid() && ledger == old(ledger)
      ensures (r, directory) == CreateStep(digest, old(directory), name, upSql, downSql, upCreatedAt, downCreatedAt)
    {
      var existing := GetAvailableMigrations();
      var choice := ChooseVersion(existing);
      if choice.InvalidVersion? {
        return CreateFailed(BadVersion(choice.text));
      }
      if directory.Missing? {
        return CreateFailed(NoDirectory);
      }
      var version := choice.version;
      var safe := SafeName(name);
      var upFile := UpFilename(version, safe);
      var downText: Option<string> := None;
      var downFile: Option<string> := None;
      if HasDownSql(downSql) {
        downText := Some(DownFileText(version, safe, downCreatedAt, downSql.value));
        downFile := Some(DownFilenameOf(version, safe));
      }
      var beside := if DownFilename(upFile) == DownFilenameOf(version, safe) then downText else None;
      var file := MigrationFile(upFile, UpFileText(version, safe, name, upCreatedAt, upSql), beside);
      CreateKeepsSorted(digest, directory.files, version, file);
      directory := Present(InsertFile(directory.files, file));
      r := Created(version, safe, upFile, downFile);
    }
  }

  /**
   The new up-file's name is taken by no existing file, so inserting it keeps the directory
   sorted.
   */
  lemma CreateKeepsSorted(digest: string -> string, files: seq<MigrationFile>, version: string, file: MigrationFile)
    requires Sorted(files)
    requires ChooseVersion(Scan(digest, Present(files))) == NextVersion(version)
    requires exists safe :: file.filename == UpFilename(version, safe)
    ensures Sorted(InsertFile(files, file))
  {
    var catalog := Scan(digest, Present(files));
    ChooseVersionFresh(catalog);
    var safe :| file.filename == UpFilename(version, safe);
    CreatedFileScanned(version, safe);
    forall g <- files ensures g.filename != file.filename {
      var k :| 0 <= k < |files| && files[k] == g;
      assert catalog[k] == ScanFile(digest, g);
      assert catalog[k] in catalog;
    }
    InsertFileSorted(files, file);
  }

  /** A catalog entry's version always finds a file. */
  lemma LookupFindsEntry(digest: string -> string, files: seq<MigrationFile>, e: Entry)
    requires e in Scan(digest, Present(files))
    ensures Lookup(files, e.version).Some?
  {
    var k :| 0 <= k < |files| && Scan(digest, Present(files))[k] == e;
    assert files[k] in files;
  }
}
