/**
 What the engine's transitions promise, stated over the specification functions ApplyStep,
 RollbackStep and CreateStep that the MigrationEngine methods are proved against.
 */
module EngineProperties {
  import opened Wrappers
  import opened Text
  import opened Catalog
  import opened Ledger
  import opened Status
  import opened Authoring
  import opened Engine

  /**
   Apply checks "not found" before "already applied": a version with no file is reported as not
   found even when the ledger has it. Neither guard changes the ledger, and a dry run never does.
   */
  lemma ApplyGuardOrder(digest: string -> string, files: seq<MigrationFile>, ledger: seq<Record>, version: string,
                        dryRun: bool, outcome: Outcome, elapsedMs: nat, appliedAt: string)
    ensures var step := ApplyStep(digest, files, ledger, version, dryRun, outcome, elapsedMs, appliedAt);
      && (Lookup(files, version).None? ==> step == Step(Failure(NotFoundMessage(version)), ledger))
      && (Lookup(files, version).Some? && version in Versions(ledger) ==>
            step == Step(Failure(AlreadyAppliedMessage(version)), ledger))
      && (dryRun ==> step.ledger == ledger)
      && (!step.response.Applied? ==> step.ledger == ledger)
      && (!dryRun && step.response.Success() ==> step.response.Applied?)
  {
  }

  /**
   A dry run of a migration that can be applied previews its up-script: at most 500 characters
   of it, followed by "..." exactly when the script is longer.
   */
  lemma ApplyDryRunPreview(digest: string -> string, files: seq<MigrationFile>, ledger: seq<Record>, version: string,
                           outcome: Outcome, elapsedMs: nat, appliedAt: string)
    requires Lookup(files, version).Some? && version !in Versions(ledger)
    ensures var f := Lookup(files, version).value;
      var step := ApplyStep(digest, files, ledger, version, true, outcome, elapsedMs, appliedAt);
      && step.response.ApplyPreview? && step.ledger == ledger
      && step.response.name == ScanFile(digest, f).name
      && Take(f.up, 500) <= step.response.sqlPreview
      && (|step.response.sqlPreview| > 500 <==> |f.up| > 500)
  {
  }

  /**
   A successful apply inserts exactly one row, for a version that was not applied, holding the
   catalog's name and checksum and the elapsed time, and keeps every other row and the order.
   */
  lemma ApplyAddsOneRow(digest: string -> string, files: seq<MigrationFile>, ledger: seq<Record>, version: string,
                        dryRun: bool, outcome: Outcome, elapsedMs: nat, appliedAt: string)
    requires Ordered(ledger)
    requires ApplyStep(digest, files, ledger, version, dryRun, outcome, elapsedMs, appliedAt).response.Applied?
    ensures var f := Lookup(files, version).value;
      var rec := Record(version, ScanFile(digest, f).name, ScanFile(digest, f).checksum, appliedAt, elapsedMs);
      var after := ApplyStep(digest, files, ledger, version, dryRun, outcome, elapsedMs, appliedAt).ledger;
      && version !in Versions(ledger)
      && Ordered(after)
      && Versions(after) == Versions(ledger) + {version}
      && multiset(after) == multiset(ledger) + multiset{rec}
  {
    var f := Lookup(files, version).value;
    InsertAddsOneRow(ledger, RecordFor(digest, f, version, appliedAt, elapsedMs));
  }

  /**
   After a successful apply every catalog entry of that version has moved from pending to
   applied, and every other entry stays where it was.
   */
  lemma ApplyMovesToApplied(digest: string -> string, files: seq<MigrationFile>, ledger: seq<Record>, version: string,
                            dryRun: bool, outcome: Outcome, elapsedMs: nat, appliedAt: string, e: Entry)
    requires Ordered(ledger)
    requires ApplyStep(digest, files, ledger, version, dryRun, outcome, elapsedMs, appliedAt).response.Applied?
    requires e in Scan(digest, Present(files))
    ensures var catalog := Scan(digest, Present(files));
      var before := StatusOf(catalog, ledger);
      var after := StatusOf(catalog, ApplyStep(digest, files, ledger, version, dryRun, outcome, elapsedMs, appliedAt).ledger);
      && (e.version == version ==> e in before.pending && e in after.applied && e !in after.pending)
      && (e.version != version ==> (e in after.pending <==> e in before.pending) && (e in after.applied <==> e in before.applied))
  {
    ApplyAddsOneRow(digest, files, ledger, version, dryRun, outcome, elapsedMs, appliedAt);
    var catalog := Scan(digest, Present(files));
    var newLedger := ApplyStep(digest, files, ledger, version, dryRun, outcome, elapsedMs, appliedAt).ledger;
    var before, after := StatusOf(catalog, ledger), StatusOf(catalog, newLedger);
    assert before.pending == PendingEntries(catalog, Versions(ledger)) && before.applied == AppliedEntries(catalog, Versions(ledger));
    assert after.pending == PendingEntries(catalog, Versions(newLedger)) && after.applied == AppliedEntries(catalog, Versions(newLedger));
    MovesToApplied(catalog, Versions(ledger), Versions(newLedger), version, e);
  }

  /** Adding one version to the applied set moves exactly its entries from pending to applied. */
  lemma MovesToApplied(catalog: seq<Entry>, vs: set<string>, ws: set<string>, version: string, e: Entry)
    requires ws == vs + {version} && version !in vs && e in catalog
    ensures e.version == version ==>
      e in PendingEntries(catalog, vs) && e in AppliedEntries(catalog, ws) && e !in PendingEntries(catalog, ws)
    ensures e.version != version ==>
      && (e in PendingEntries(catalog, ws) <==> e in PendingEntries(catalog, vs))
      && (e in AppliedEntries(catalog, ws) <==> e in AppliedEntries(catalog, vs))
  {
  }

  /** Applying a version above every applied one makes it the current version. */
  lemma ApplyAdvancesCurrentVersion(digest: string -> string, files: seq<MigrationFile>, ledger: seq<Record>, version: string,
                                    dryRun: bool, outcome: Outcome, elapsedMs: nat, appliedAt: string)
    requires Ordered(ledger)
    requires ApplyStep(digest, files, ledger, version, dryRun, outcome, elapsedMs, appliedAt).response.Applied?
    requires forall x <- ledger :: Less(x.version, version)
    ensures StatusOf(Scan(digest, Present(files)), ApplyStep(digest, files, ledger, version, dryRun, outcome, elapsedMs, appliedAt).ledger).currentVersion
      == Some(version)
  {
    var f := Lookup(files, version).value;
    var rec := RecordFor(digest, f, version, appliedAt, elapsedMs);
    InsertAtEnd(ledger, rec);
  }

  lemma {:induction false} InsertAtEnd(ledger: seq<Record>, rec: Record)
    requires forall x <- ledger :: Less(x.version, rec.version)
    ensures Insert(ledger, rec) == ledger + [rec]
  {
    if ledger != [] {
      assert ledger[0] in ledger;
      LessIrreflexive(rec.version);
      if Less(rec.version, ledger[0].version) {
        LessTransitive(rec.version, ledger[0].version, rec.version);
      }
      assert forall x <- ledger[1..] :: x in ledger;
      InsertAtEnd(ledger[1..], rec);
      assert ledger == [ledger[0]] + ledger[1..];
    }
  }

  /**
   Rollback checks "not found", then the missing down-file, then "not applied": a missing
   down-file is reported even for a version that is not applied. Guards and dry runs leave the
   ledger as it is.
   */
  lemma RollbackGuardOrder(files: seq<MigrationFile>, ledger: seq<Record>, version: string, dryRun: bool, outcome: Outcome)
    ensures var step := RollbackStep(files, ledger, version, dryRun, outcome);
      && (Lookup(files, version).None? ==> step == Step(Failure(NotFoundMessage(version)), ledger))
      && (Lookup(files, version).Some? && Lookup(files, version).value.down.None? ==>
            step == Step(Failure(DownMissingMessage(DownFilename(Lookup(files, version).value.filename))), ledger))
      && (Lookup(files, version).Some? && Lookup(files, version).value.down.Some? && version !in Versions(ledger) ==>
            step == Step(Failure(NotAppliedMessage(version)), ledger))
      && (dryRun ==> step.ledger == ledger)
      && (!step.response.RolledBack? ==> step.ledger == ledger)
  {
  }

  /**
   A successful rollback deletes only the row of that version: the version is no longer
   applied, every other row stays, and its catalog entries are pending again.
   */
  lemma RollbackRemovesOneRow(digest: string -> string, files: seq<MigrationFile>, ledger: seq<Record>, version: string,
                              dryRun: bool, outcome: Outcome, e: Entry)
    requires Ordered(ledger)
    requires RollbackStep(files, ledger, version, dryRun, outcome).response.RolledBack?
    requires e in Scan(digest, Present(files))
    ensures var after := RollbackStep(files, ledger, version, dryRun, outcome).ledger;
      && version in Versions(ledger)
      && Ordered(after)
      && Versions(after) == Versions(ledger) - {version}
      && (forall x <- ledger :: x.version != version ==> x in after)
      && (e.version == version ==> e in StatusOf(Scan(digest, Present(files)), after).pending)
  {
    RemoveDeletesOneRow(ledger, version);
  }

  /** Rolling back right after applying gives back the ledger as it was. */
  lemma ApplyThenRollback(digest: string -> string, files: seq<MigrationFile>, ledger: seq<Record>, version: string,
                          elapsedMs: nat, appliedAt: string)
    requires ApplyStep(digest, files, ledger, version, false, Done, elapsedMs, appliedAt).response.Applied?
    requires Lookup(files, version).value.down.Some?
    ensures var applied := ApplyStep(digest, files, ledger, version, false, Done, elapsedMs, appliedAt).ledger;
      RollbackStep(files, applied, version, false, Done) == Step(RolledBack(version, "Rolled back " + version), ledger)
  {
    var f := Lookup(files, version).value;
    var rec := RecordFor(digest, f, version, appliedAt, elapsedMs);
    RemoveInsertRoundTrip(ledger, rec);
    InsertRows(ledger, rec);
    assert version in Versions(Insert(ledger, rec));
  }

  /**
   A successful create adds exactly one up-file, named `{version}_{safe name}.up.sql` for the
   chosen version, keeps every existing file and the name order, and reports a down-file exactly
   when a non-empty down-script was given. The new file is scanned under the chosen version.
   */
  lemma CreateAddsOneFile(digest: string -> string, files: seq<MigrationFile>, name: string, upSql: string,
                          downSql: Option<string>, upCreatedAt: string, downCreatedAt: string)
    requires Sorted(files)
    requires CreateStep(digest, Present(files), name, upSql, downSql, upCreatedAt, downCreatedAt).0.Created?
    ensures var r := CreateStep(digest, Present(files), name, upSql, downSql, upCreatedAt, downCreatedAt).0;
      && ChooseVersion(Scan(digest, Present(files))) == NextVersion(r.version)
      && r.name == SafeName(name)
      && r.upFile == UpFilename(r.version, r.name)
      && (r.downFile.Some? <==> HasDownSql(downSql))
    ensures var (r, dir) := CreateStep(digest, Present(files), name, upSql, downSql, upCreatedAt, downCreatedAt);
      && dir.Present? && |dir.files| == |files| + 1 && Sorted(dir.files)
      && (forall g <- files :: g in dir.files && g.filename != r.upFile)
      && (exists g <- dir.files :: g.filename == r.upFile && ParseFilename(g.filename).version == r.version)
  {
    var catalog := Scan(digest, Present(files));
    var version := ChooseVersion(catalog).version;
    var file := NewFile(version, name, upSql, downSql, upCreatedAt, downCreatedAt);
    NewFileFresh(digest, files, version, file);
    CreateKeepsSorted(digest, files, version, file);
    CreatedVersion(version, SafeName(name));
    assert file in InsertFile(files, file);
  }

  /** The chosen version's file name is taken by no existing file. */
  lemma NewFileFresh(digest: string -> string, files: seq<MigrationFile>, version: string, file: MigrationFile)
    requires ChooseVersion(Scan(digest, Present(files))) == NextVersion(version)
    requires exists safe :: file.filename == UpFilename(version, safe)
    ensures IsDigits(version)
    ensures forall g <- files :: g.filename != file.filename
  {
    var catalog := Scan(digest, Present(files));
    ChooseVersionFresh(catalog);
    var safe :| file.filename == UpFilename(version, safe);
    CreatedVersion(version, safe);
    forall g <- files ensures g.filename != file.filename {
      var k :| 0 <= k < |files| && files[k] == g;
      assert catalog[k] == ScanFile(digest, g);
      assert catalog[k] in catalog;
    }
  }

  /**
   When the sanitised name holds no `.up.sql`, the new file is read back with the chosen version
   and the sanitised name, holds the header and the up-script, and carries the down-script
   exactly when a non-empty one was given: it sits where rollback looks for it.
   */
  lemma CreateRoundTrip(version: string, name: string, upSql: string, downSql: Option<string>,
                        upCreatedAt: string, downCreatedAt: string)
    requires IsDigits(version)
    requires !Contains(version + "_" + SafeName(name), UpSuffix)
    ensures var g := NewFile(version, name, upSql, downSql, upCreatedAt, downCreatedAt);
      && ParseFilename(g.filename) == ParsedName(version, SafeName(name), version + "_" + SafeName(name))
      && g.up == UpFileText(version, SafeName(name), name, upCreatedAt, upSql)
      && (HasDownSql(downSql) ==> g.down == Some(DownFileText(version, SafeName(name), downCreatedAt, downSql.value)))
      && (!HasDownSql(downSql) ==> g.down.None?)
  {
    assert '_' !in version by {
      forall k | 0 <= k < |version| ensures version[k] != '_' {
        assert '0' <= version[k] <= '9';
      }
    }
    ParseFilenameRoundTrip(version, SafeName(name));
    CreatedDownBeside(version, SafeName(name));
  }

  /**
   A created migration lands in the new directory as the file NewFile describes, under the
   reported up-file name, which no old file had: the new directory holds exactly the old files
   and that one, and its up text is the header followed by the up-script.
   */
  lemma CreateWritesNewFile(digest: string -> string, files: seq<MigrationFile>, name: string, upSql: string,
                            downSql: Option<string>, upCreatedAt: string, downCreatedAt: string)
    requires CreateStep(digest, Present(files), name, upSql, downSql, upCreatedAt, downCreatedAt).0.Created?
    ensures var (r, dir) := CreateStep(digest, Present(files), name, upSql, downSql, upCreatedAt, downCreatedAt);
      var g := NewFile(r.version, name, upSql, downSql, upCreatedAt, downCreatedAt);
      && dir.Present?
      && g.filename == r.upFile
      && (forall f :: f in dir.files <==> f in files || f == g)
      && (forall f <- files :: f.filename != g.filename)
      && g.up == UpFileText(r.version, r.name, name, upCreatedAt, upSql)
  {
    var r := CreateStep(digest, Present(files), name, upSql, downSql, upCreatedAt, downCreatedAt).0;
    var g := NewFile(r.version, name, upSql, downSql, upCreatedAt, downCreatedAt);
    NewFileFresh(digest, files, r.version, g);
  }

  /** Create fails on a version that is not a number, and leaves the directory as it was. */
  lemma CreateFailsOnBadVersion(digest: string -> string, dir: Directory, name: string, upSql: string,
                                downSql: Option<string>, upCreatedAt: string, downCreatedAt: string)
    ensures var (r, after) := CreateStep(digest, dir, name, upSql, downSql, upCreatedAt, downCreatedAt);
      && (r.CreateFailed? ==> after == dir)
      && (r.CreateFailed? && r.reason.BadVersion? <==> exists e <- Scan(digest, dir) :: !IsDigits(e.version))
      && (dir.Missing? ==> r.CreateFailed?)
  {
    ChooseVersionFresh(Scan(digest, dir));
  }
}
