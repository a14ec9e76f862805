/**
 The tools src/server.py puts around the engine, and their twins in src/mcp_db_migrate.py (which
 return the same dictionaries as JSON text): `apply_all_pending`, `rollback_last`, the keyword
 guard of `run_query`, `read_migration_sql` and `check_drift`.
 */
module Tools {
  import opened Wrappers
  import opened Text
  import opened Adapters
  import opened Catalog
  import opened Ledger
  import opened Status
  import opened Engine
  import opened EngineProperties

  // ---------------------------------------------------------------------------------------
  // apply_all_pending

  /** The responses of a run of applies and the ledger it leaves. */
  datatype Batch = Batch(results: seq<Response>, ledger: seq<Record>)

  /** The dictionary `apply_all_pending` returns. */
  datatype BatchReport = BatchReport(total: nat, applied: nat, dryRun: bool, results: seq<Response>)

  /**
   One call of the batch: given the ledger so far, the pending entry and the call's index, the
   response and the ledger it leaves.
   */
  type StepFn = (seq<Record>, Entry, nat) -> Step

  /**
   The loop of `apply_all_pending` for any step: the calls are made in the order of `pending`,
   numbered from `k`, and without a dry run the loop stops right after the first response that
   is not a success.
   */
  function RunSteps(step: StepFn, ledger: seq<Record>, pending: seq<Entry>, k: nat, dryRun: bool): (r: Batch)
    ensures |r.results| <= |pending|
    ensures dryRun ==> |r.results| == |pending|
    ensures pending != [] ==> r.results != []
    decreases |pending|
  {
    if pending == [] then Batch([], ledger)
    else
      var s := step(ledger, pending[0], k);
      if !s.response.Success() && !dryRun then Batch([s.response], s.ledger)
      else
        var rest := RunSteps(step, s.ledger, pending[1..], k + 1, dryRun);
        Batch([s.response] + rest.results, rest.ledger)
  }

  /** The k-th apply call ends with `outcomes(k)` after `elapsed(k)` milliseconds at `stamps(k)`. */
  function ApplyCall(digest: string -> string, files: seq<MigrationFile>, dryRun: bool,
                     outcomes: nat -> Outcome, elapsed: nat -> nat, stamps: nat -> string): StepFn
  {
    (ledger: seq<Record>, e: Entry, j: nat) =>
      ApplyStep(digest, files, ledger, e.version, dryRun, outcomes(j), elapsed(j), stamps(j))
  }

  /**
   Applying `pending` in order with the engine's apply, as `apply_all_pending` does. A real run
   stops right after its first failure, and every earlier result succeeded; a dry run visits
   every pending entry and leaves the ledger as it was.
   */
  function ApplyEach(digest: string -> string, files: seq<MigrationFile>, ledger: seq<Record>, pending: seq<Entry>,
                     k: nat, dryRun: bool, outcomes: nat -> Outcome, elapsed: nat -> nat, stamps: nat -> string): (b: Batch)
    ensures |b.results| <= |pending|
    ensures !dryRun ==> forall j :: 0 <= j < |b.results| - 1 ==> b.results[j].Success()
    ensures !dryRun && |b.results| < |pending| ==> b.results != [] && !b.results[|b.results| - 1].Success()
    ensures dryRun ==> |b.results| == |pending| && b.ledger == ledger
  {
    var step := ApplyCall(digest, files, dryRun, outcomes, elapsed, stamps);
    DryCallsKeepLedger(digest, files, dryRun, outcomes, elapsed, stamps);
    RunStopRule(step, ledger, pending, k, dryRun);
    RunSteps(step, ledger, pending, k, dryRun)
  }

  /** In a dry run no apply call changes the ledger. */
  lemma DryCallsKeepLedger(digest: string -> string, files: seq<MigrationFile>, dryRun: bool,
                           outcomes: nat -> Outcome, elapsed: nat -> nat, stamps: nat -> string)
    ensures dryRun ==> forall l, e, j :: ApplyCall(digest, files, dryRun, outcomes, elapsed, stamps)(l, e, j).ledger == l
  {
    if dryRun {
      var step := ApplyCall(digest, files, dryRun, outcomes, elapsed, stamps);
      forall l, e, j ensures step(l, e, j).ledger == l {
        ApplyGuardOrder(digest, files, l, e.version, dryRun, outcomes(j), elapsed(j), stamps(j));
      }
    }
  }

  /** `len([r for r in results if r["success"]])`. */
  function CountSuccess(results: seq<Response>): (n: nat)
    ensures n <= |results|
    ensures n == |results| <==> forall r <- results :: r.Success()
  {
    if results == [] then 0
    else
      assert forall r <- results :: r == results[0] || r in results[1..];
      (if results[0].Success() then 1 else 0) + CountSuccess(results[1..])
  }

  /**
   The count is the number of successes: one response counts 1 exactly when it succeeded, and
   the count of a concatenation is the sum of the counts of its parts.
   */
  lemma {:induction false} CountSuccessAdds(a: seq<Response>, b: seq<Response>, r: Response)
    ensures CountSuccess([r]) == if r.Success() then 1 else 0
    ensures CountSuccess(a + b) == CountSuccess(a) + CountSuccess(b)
  {
    assert [r][1..] == [];
    if a == [] {
      assert a + b == b;
    } else {
      assert (a + b)[0] == a[0];
      assert (a + b)[1..] == a[1..] + b;
      CountSuccessAdds(a[1..], b, r);
    }
  }

  /**
   `apply_all_pending`: the pending list is read once from the status, then each pending
   migration is applied in catalog order; the loop breaks after the first failure unless this
   is a dry run.
   */
  method ApplyAllPending(engine: MigrationEngine, dryRun: bool, cursor: Cursor,
                         outcomes: nat -> Outcome, elapsed: nat -> nat, stamps: nat -> string)
    returns (report: BatchReport)
    requires engine.Valid()
    modifies engine, cursor
    ensures engine.Valid() && engine.directory == old(engine.directory)
    ensures var pending := StatusOf(old(engine.Available()), old(engine.ledger)).pending;
      var batch := ApplyEach(engine.digest, old(engine.Files()), old(engine.ledger), pending, 0, dryRun, outcomes, elapsed, stamps);
      && report == BatchReport(|pending|, CountSuccess(batch.results), dryRun, batch.results)
      && engine.ledger == batch.ledger
  {
    assert engine.Available() == Scan(engine.digest, Present(engine.Files()));
    var status := engine.GetStatus();
    ghost var full := ApplyEach(engine.digest, engine.Files(), engine.ledger, status.pending, 0, dryRun, outcomes, elapsed, stamps);
    var results := ApplyInOrder(engine, status.pending, dryRun, cursor, outcomes, elapsed, stamps, full);
    report := BatchReport(|status.pending|, CountSuccess(results), dryRun, results);
  }

  /**
   The loop of `apply_all_pending` over a given pending list; `full` is the run the loop is
   shown to carry out.
   */
  method ApplyInOrder(engine: MigrationEngine, pending: seq<Entry>, dryRun: bool, cursor: Cursor,
                      outcomes: nat -> Outcome, elapsed: nat -> nat, stamps: nat -> string, ghost full: Batch)
    returns (results: seq<Response>)
    requires engine.Valid()
    requires full == ApplyEach(engine.digest, engine.Files(), engine.ledger, pending, 0, dryRun, outcomes, elapsed, stamps)
    modifies engine, cursor
    ensures engine.Valid() && engine.directory == old(engine.directory)
    ensures Batch(results, engine.ledger) == full
  {
    ghost var files := engine.Files();
    OnTrackStart(engine.digest, files, engine.ledger, pending, dryRun, outcomes, elapsed, stamps, full);
    results := [];
    var i := 0;
    while i < |pending|
      invariant 0 <= i <= |pending|
      invariant engine.Valid() && engine.directory == old(engine.directory) && engine.Files() == files
      invariant OnTrack(engine.digest, files, engine.ledger, pending, i, dryRun, outcomes, elapsed, stamps, results, full)
    {
      var r := ApplyNext(engine, pending, i, dryRun, cursor, outcomes, elapsed, stamps, files, results, full);
      results := results + [r];
      if !r.Success() && !dryRun {
        return;
      }
      i := i + 1;
    }
    OnTrackDone(engine.digest, files, engine.ledger, pending, dryRun, outcomes, elapsed, stamps, results, full);
  }

  /** One pass of the apply-all loop: apply the i-th pending migration. */
  method ApplyNext(engine: MigrationEngine, pending: seq<Entry>, i: nat, dryRun: bool, cursor: Cursor,
                   outcomes: nat -> Outcome, elapsed: nat -> nat, stamps: nat -> string,
                   ghost files: seq<MigrationFile>, ghost results: seq<Response>, ghost full: Batch)
    returns (r: Response)
    requires i < |pending| && engine.Valid() && engine.Files() == files
    requires OnTrack(engine.digest, files, engine.ledger, pending, i, dryRun, outcomes, elapsed, stamps, results, full)
    modifies engine, cursor
    ensures engine.Valid() && engine.directory == old(engine.directory)
    ensures !r.Success() && !dryRun ==> Batch(results + [r], engine.ledger) == full
    ensures r.Success() || dryRun ==>
      OnTrack(engine.digest, files, engine.ledger, pending, i + 1, dryRun, outcomes, elapsed, stamps, results + [r], full)
  {
    ghost var before := engine.ledger;
    r := engine.Apply(pending[i].version, dryRun, cursor, outcomes(i), elapsed(i), stamps(i));
    ApplyEachNext(engine.digest, files, before, engine.ledger, pending, i, dryRun, outcomes, elapsed, stamps, results, r, full);
  }

  /**
   The loop invariant of `apply_all_pending`: the results so far, followed by what the rest of
   the pending list yields from the current ledger, are the whole run.
   */
  ghost predicate OnTrack(digest: string -> string, files: seq<MigrationFile>, ledger: seq<Record>, pending: seq<Entry>,
                          i: nat, dryRun: bool, outcomes: nat -> Outcome, elapsed: nat -> nat, stamps: nat -> string,
                          results: seq<Response>, full: Batch)
    requires i <= |pending|
  {
    var rest := ApplyEach(digest, files, ledger, pending[i..], i, dryRun, outcomes, elapsed, stamps);
    results + rest.results == full.results && rest.ledger == full.ledger
  }

  /** Before the first pass nothing is done and the whole run lies ahead. */
  lemma OnTrackStart(digest: string -> string, files: seq<MigrationFile>, ledger: seq<Record>, pending: seq<Entry>,
                     dryRun: bool, outcomes: nat -> Outcome, elapsed: nat -> nat, stamps: nat -> string, full: Batch)
    requires full == ApplyEach(digest, files, ledger, pending, 0, dryRun, outcomes, elapsed, stamps)
    ensures OnTrack(digest, files, ledger, pending, 0, dryRun, outcomes, elapsed, stamps, [], full)
  {
    assert pending[0..] == pending;
    assert [] + full.results == full.results;
  }

  /** At the end of the pending list the results are the whole run. */
  lemma OnTrackDone(digest: string -> string, files: seq<MigrationFile>, ledger: seq<Record>, pending: seq<Entry>,
                    dryRun: bool, outcomes: nat -> Outcome, elapsed: nat -> nat, stamps: nat -> string,
                    results: seq<Response>, full: Batch)
    requires OnTrack(digest, files, ledger, pending, |pending|, dryRun, outcomes, elapsed, stamps, results, full)
    ensures Batch(results, ledger) == full
  {
    assert pending[|pending|..] == [];
    assert results + [] == results;
  }

  /** One iteration of the apply-all loop: the response extends the results toward the whole run. */
  lemma ApplyEachNext(digest: string -> string, files: seq<MigrationFile>, before: seq<Record>, after: seq<Record>,
                      pending: seq<Entry>, i: nat, dryRun: bool,
                      outcomes: nat -> Outcome, elapsed: nat -> nat, stamps: nat -> string,
                      results: seq<Response>, r: Response, full: Batch)
    requires i < |pending|
    requires Step(r, after) == ApplyStep(digest, files, before, pending[i].version, dryRun, outcomes(i), elapsed(i), stamps(i))
    requires OnTrack(digest, files, before, pending, i, dryRun, outcomes, elapsed, stamps, results, full)
    ensures !r.Success() && !dryRun ==> Batch(results + [r], after) == full
    ensures r.Success() || dryRun ==> OnTrack(digest, files, after, pending, i + 1, dryRun, outcomes, elapsed, stamps, results + [r], full)
  {
    var call := ApplyCall(digest, files, dryRun, outcomes, elapsed, stamps);
    assert call(before, pending[i], i) == Step(r, after);
    assert pending[i..][0] == pending[i] && pending[i..][1..] == pending[i + 1..];
    var rest := RunSteps(call, before, pending[i..], i, dryRun);
    var next := RunSteps(call, after, pending[i + 1..], i + 1, dryRun);
    if r.Success() || dryRun {
      assert rest == Batch([r] + next.results, next.ledger);
      ConcatAssoc(results, [r], next.results);
    } else {
      assert rest == Batch([r], after);
    }
  }

  /**
   The stop rule, for any step: at most one response per pending entry; without a dry run
   every response but the last is a success and the run ends early only on a failure; a dry
   run answers every pending entry, and leaves the ledger as it was when each call does.
   */
  lemma {:induction false} RunStopRule(step: StepFn, ledger: seq<Record>, pending: seq<Entry>, k: nat, dryRun: bool)
    requires dryRun ==> forall l, e, j :: step(l, e, j).ledger == l
    ensures var b := RunSteps(step, ledger, pending, k, dryRun);
      && |b.results| <= |pending|
      && (!dryRun ==> forall j :: 0 <= j < |b.results| - 1 ==> b.results[j].Success())
      && (!dryRun && |b.results| < |pending| ==> b.results != [] && !b.results[|b.results| - 1].Success())
      && (dryRun ==> |b.results| == |pending| && b.ledger == ledger)
    decreases |pending|
  {
    if pending != [] {
      var s := step(ledger, pending[0], k);
      if s.response.Success() || dryRun {
        RunStopRule(step, s.ledger, pending[1..], k + 1, dryRun);
        var rest := RunSteps(step, s.ledger, pending[1..], k + 1, dryRun);
        var b := RunSteps(step, ledger, pending, k, dryRun);
        assert b.results == [s.response] + rest.results;
        assert forall j :: 0 < j < |b.results| ==> b.results[j] == rest.results[j - 1];
      }
    }
  }

  /**
   What one call may do to the ledger: keep it ordered, lose no version and add at most the
   call's own; an `Applied` response adds exactly that version as one new row, any other
   response leaves the ledger as it was, and outside a dry run every success is `Applied`.
   */
  predicate StepRows(s: Step, ledger: seq<Record>, version: string, dryRun: bool)
  {
    && Ordered(s.ledger)
    && Versions(ledger) <= Versions(s.ledger) <= Versions(ledger) + {version}
    && (s.response.Applied? ==> version in Versions(s.ledger) && |s.ledger| == |ledger| + 1)
    && (!s.response.Applied? ==> s.ledger == ledger)
    && (!dryRun && s.response.Success() ==> s.response.Applied?)
  }

  /**
   The ledger after a run of calls that each behave as StepRows says: still in order, no
   version lost, one row more per success (without a dry run), every applied entry's version
   recorded, and no version recorded that was neither there before nor pending.
   */
  lemma {:induction false} RunRows(step: StepFn, ledger: seq<Record>, pending: seq<Entry>, k: nat, dryRun: bool)
    requires Ordered(ledger)
    requires forall l, e, j :: Ordered(l) ==> StepRows(step(l, e, j), l, e.version, dryRun)
    ensures var b := RunSteps(step, ledger, pending, k, dryRun);
      && Ordered(b.ledger)
      && Versions(ledger) <= Versions(b.ledger)
      && (!dryRun ==> |b.ledger| == |ledger| + CountSuccess(b.results))
      && (forall j :: 0 <= j < |b.results| && j < |pending| && b.results[j].Applied? ==> pending[j].version in Versions(b.ledger))
      && (forall v <- Versions(b.ledger) :: v in Versions(ledger) || exists e <- pending :: e.version == v)
    decreases |pending|
  {
    if pending != [] {
      var s := step(ledger, pending[0], k);
      assert StepRows(s, ledger, pending[0].version, dryRun);
      var b := RunSteps(step, ledger, pending, k, dryRun);
      if s.response.Success() || dryRun {
        var rest := RunSteps(step, s.ledger, pending[1..], k + 1, dryRun);
        RunRows(step, s.ledger, pending[1..], k + 1, dryRun);
        assert b == Batch([s.response] + rest.results, rest.ledger);
        assert b.results[0] == s.response && b.results[1..] == rest.results;
        forall j | 0 <= j < |b.results| && j < |pending| && b.results[j].Applied?
          ensures pending[j].version in Versions(b.ledger)
        {
          if j > 0 {
            assert b.results[j] == rest.results[j - 1];
            assert pending[j] == pending[1..][j - 1];
          }
        }
        forall v <- Versions(b.ledger) ensures v in Versions(ledger) || exists e <- pending :: e.version == v {
          if v !in Versions(s.ledger) {
            var e :| e in pending[1..] && e.version == v;
            assert e in pending;
          } else if v !in Versions(ledger) {
            assert v == pending[0].version && pending[0] in pending;
          }
        }
      } else {
        assert b == Batch([s.response], ledger);
        assert CountSuccess(b.results) == 0;
      }
    }
  }

  /** Every apply call behaves as StepRows says. */
  lemma ApplyCallRows(digest: string -> string, files: seq<MigrationFile>, ledger: seq<Record>, version: string,
                      dryRun: bool, outcome: Outcome, elapsedMs: nat, appliedAt: string)
    requires Ordered(ledger)
    ensures StepRows(ApplyStep(digest, files, ledger, version, dryRun, outcome, elapsedMs, appliedAt), ledger, version, dryRun)
  {
    var s := ApplyStep(digest, files, ledger, version, dryRun, outcome, elapsedMs, appliedAt);
    ApplyGuardOrder(digest, files, ledger, version, dryRun, outcome, elapsedMs, appliedAt);
    if s.response.Applied? {
      ApplyAddsOneRow(digest, files, ledger, version, dryRun, outcome, elapsedMs, appliedAt);
      assert |multiset(s.ledger)| == |multiset(ledger)| + 1;
    }
  }

  /** The ledger after `apply_all_pending` with the engine's apply, as RunRows states it. */
  lemma ApplyEachRows(digest: string -> string, files: seq<MigrationFile>, ledger: seq<Record>,
                      pending: seq<Entry>, k: nat, dryRun: bool,
                      outcomes: nat -> Outcome, elapsed: nat -> nat, stamps: nat -> string)
    requires Ordered(ledger)
    ensures var b := ApplyEach(digest, files, ledger, pending, k, dryRun, outcomes, elapsed, stamps);
      && Ordered(b.ledger)
      && Versions(ledger) <= Versions(b.ledger)
      && (!dryRun ==> |b.ledger| == |ledger| + CountSuccess(b.results))
      && (forall j :: 0 <= j < |b.results| && j < |pending| && b.results[j].Applied? ==> pending[j].version in Versions(b.ledger))
      && (forall v <- Versions(b.ledger) :: v in Versions(ledger) || exists e <- pending :: e.version == v)
  {
    var step := ApplyCall(digest, files, dryRun, outcomes, elapsed, stamps);
    forall l, e, j | Ordered(l) ensures StepRows(step(l, e, j), l, e.version, dryRun) {
      ApplyCallRows(digest, files, l, e.version, dryRun, outcomes(j), elapsed(j), stamps(j));
    }
    RunRows(step, ledger, pending, k, dryRun);
  }

  /**
   A dry run whose calls all leave the ledger as it is answers every pending entry, in order,
   with that call's response.
   */
  lemma {:induction false} RunDryRun(step: StepFn, ledger: seq<Record>, pending: seq<Entry>, k: nat)
    requires forall j :: 0 <= j < |pending| ==> step(ledger, pending[j], k + j).ledger == ledger
    ensures var b := RunSteps(step, ledger, pending, k, true);
      && |b.results| == |pending| && b.ledger == ledger
      && forall j :: 0 <= j < |pending| ==> b.results[j] == step(ledger, pending[j], k + j).response
    decreases |pending|
  {
    if pending != [] {
      assert step(ledger, pending[0], k + 0).ledger == ledger;
      forall j | 0 <= j < |pending[1..]| ensures step(ledger, pending[1..][j], k + 1 + j).ledger == ledger {
        assert pending[1..][j] == pending[j + 1];
        assert step(ledger, pending[j + 1], k + (j + 1)).ledger == ledger;
      }
      RunDryRun(step, ledger, pending[1..], k + 1);
      var rest := RunSteps(step, ledger, pending[1..], k + 1, true);
      var b := RunSteps(step, ledger, pending, k, true);
      assert b.results == [step(ledger, pending[0], k).response] + rest.results;
      forall j | 0 < j < |pending| ensures b.results[j] == step(ledger, pending[j], k + j).response {
        assert b.results[j] == rest.results[j - 1];
        assert pending[1..][j - 1] == pending[j];
      }
    }
  }

  /**
   A dry run over migrations that are all found and not applied previews each of them, in
   order, and counts every one as a success.
   */
  lemma ApplyEachDryRun(digest: string -> string, files: seq<MigrationFile>, ledger: seq<Record>,
                        pending: seq<Entry>, k: nat,
                        outcomes: nat -> Outcome, elapsed: nat -> nat, stamps: nat -> string)
    requires forall e <- pending :: Lookup(files, e.version).Some? && e.version !in Versions(ledger)
    ensures var b := ApplyEach(digest, files, ledger, pending, k, true, outcomes, elapsed, stamps);
      && |b.results| == |pending| && b.ledger == ledger
      && CountSuccess(b.results) == |pending|
      && forall j :: 0 <= j < |pending| ==>
           var f := Lookup(files, pending[j].version).value;
           b.results[j] == ApplyPreview(pending[j].version, ScanFile(digest, f).name, Preview(f.up))
  {
    var step := ApplyCall(digest, files, true, outcomes, elapsed, stamps);
    forall j | 0 <= j < |pending|
      ensures var f := Lookup(files, pending[j].version).value;
        step(ledger, pending[j], k + j) == Step(ApplyPreview(pending[j].version, ScanFile(digest, f).name, Preview(f.up)), ledger)
    {
      assert pending[j] in pending;
      DryApplyPreviews(digest, files, ledger, pending[j].version, outcomes(k + j), elapsed(k + j), stamps(k + j));
    }
    RunDryRun(step, ledger, pending, k);
    var b := ApplyEach(digest, files, ledger, pending, k, true, outcomes, elapsed, stamps);
    forall r <- b.results ensures r.Success() {
      var j :| 0 <= j < |b.results| && b.results[j] == r;
    }
  }

  /** A dry apply of a migration that is found and not applied answers with its preview. */
  lemma DryApplyPreviews(digest: string -> string, files: seq<MigrationFile>, ledger: seq<Record>, version: string,
                         outcome: Outcome, elapsedMs: nat, appliedAt: string)
    requires Lookup(files, version).Some? && version !in Versions(ledger)
    ensures var f := Lookup(files, version).value;
      ApplyStep(digest, files, ledger, version, true, outcome, elapsedMs, appliedAt)
        == Step(ApplyPreview(version, ScanFile(digest, f).name, Preview(f.up)), ledger)
  {
  }

  /** A dry run of `apply_all_pending` previews every pending migration of the status. */
  lemma ApplyAllDryRunPreviewsPending(digest: string -> string, files: seq<MigrationFile>, ledger: seq<Record>,
                                      outcomes: nat -> Outcome, elapsed: nat -> nat, stamps: nat -> string)
    ensures var pending := StatusOf(Scan(digest, Present(files)), ledger).pending;
      var b := ApplyEach(digest, files, ledger, pending, 0, true, outcomes, elapsed, stamps);
      && |b.results| == |pending| && b.ledger == ledger && CountSuccess(b.results) == |pending|
      && forall j :: 0 <= j < |pending| ==> b.results[j].ApplyPreview? && b.results[j].version == pending[j].version
  {
    var catalog := Scan(digest, Present(files));
    var pending := StatusOf(catalog, ledger).pending;
    forall e <- pending ensures Lookup(files, e.version).Some? && e.version !in Versions(ledger) {
      LookupFindsEntry(digest, files, e);
    }
    ApplyEachDryRun(digest, files, ledger, pending, 0, outcomes, elapsed, stamps);
  }

  /**
   Two pending files with the same version: the first is applied, the second is then already
   applied, and the run stops there, although both were listed as pending.
   */
  lemma DuplicateVersionStops(digest: string -> string, files: seq<MigrationFile>, ledger: seq<Record>,
                              pending: seq<Entry>, outcomes: nat -> Outcome, elapsed: nat -> nat, stamps: nat -> string)
    requires Ordered(ledger)
    requires |pending| >= 2 && pending[0].version == pending[1].version
    requires ApplyStep(digest, files, ledger, pending[0].version, false, outcomes(0), elapsed(0), stamps(0)).response.Applied?
    ensures var b := ApplyEach(digest, files, ledger, pending, 0, false, outcomes, elapsed, stamps);
      && |b.results| == 2 && b.results[0].Applied?
      && b.results[1] == Failure(AlreadyAppliedMessage(pending[0].version))
  {
    var v := pending[0].version;
    var step := ApplyStep(digest, files, ledger, v, false, outcomes(0), elapsed(0), stamps(0));
    ApplyAddsOneRow(digest, files, ledger, v, false, outcomes(0), elapsed(0), stamps(0));
    assert v in Versions(step.ledger);
    var step2 := ApplyStep(digest, files, step.ledger, v, false, outcomes(1), elapsed(1), stamps(1));
    ApplyGuardOrder(digest, files, step.ledger, v, false, outcomes(1), elapsed(1), stamps(1));
    assert step2.response == Failure(AlreadyAppliedMessage(v));
    assert pending[1..][0] == pending[1];
    assert ApplyEach(digest, files, step.ledger, pending[1..], 1, false, outcomes, elapsed, stamps)
      == Batch([step2.response], step2.ledger);
  }

  // ---------------------------------------------------------------------------------------
  // rollback_last

  /** The error of `rollback_last` when nothing is applied. */
  const NothingToRollback := "No migrations to rollback"

  /**
   `rollback_last`: roll back the version of the last applied catalog entry (catalog order),
   not the ledger's current version.
   */
  function RollbackLastStep(digest: string -> string, files: seq<MigrationFile>, ledger: seq<Record>, outcome: Outcome): (r: Step)
    ensures r.ledger != ledger ==> r.response.RolledBack? && outcome.Done?
    ensures r.response.Success() ==> r.response.version in Versions(ledger)
  {
    var applied := StatusOf(Scan(digest, Present(files)), ledger).applied;
    if applied == [] then Step(Failure(NothingToRollback), ledger)
    else RollbackStep(files, ledger, applied[|applied| - 1].version, false, outcome)
  }

  /** `rollback_last` on the engine. */
  method RollbackLast(engine: MigrationEngine, cursor: Cursor, outcome: Outcome) returns (r: Response)
    requires engine.Valid()
    modifies engine, cursor
    ensures engine.Valid() && engine.directory == old(engine.directory)
    ensures Step(r, engine.ledger) == RollbackLastStep(engine.digest, old(engine.Files()), old(engine.ledger), outcome)
  {
    assert engine.Available() == Scan(engine.digest, Present(engine.Files()));
    var status := engine.GetStatus();
    if status.applied == [] {
      return Failure(NothingToRollback);
    }
    var last := status.applied[|status.applied| - 1];
    r := engine.Rollback(last.version, false, cursor, outcome);
  }

  /** The last applied entry is the last catalog entry whose version the ledger holds, at `k`. */
  lemma {:induction false} LastApplied(catalog: seq<Entry>, versions: set<string>) returns (k: nat)
    requires AppliedEntries(catalog, versions) != []
    ensures k < |catalog| && catalog[k] == AppliedEntries(catalog, versions)[|AppliedEntries(catalog, versions)| - 1]
    ensures catalog[k].version in versions
    ensures forall j :: k < j < |catalog| ==> catalog[j].version !in versions
  {
    var init := catalog[..|catalog| - 1];
    var last := catalog[|catalog| - 1];
    if last.version in versions {
      k := |catalog| - 1;
    } else {
      assert AppliedEntries(catalog, versions) == AppliedEntries(init, versions);
      k := LastApplied(init, versions);
      assert forall j :: k < j < |catalog| - 1 ==> catalog[j] == init[j];
    }
  }

  /**
   Rollback-last fails only when no catalog entry is applied; otherwise it targets the last
   applied entry (LastApplied says where it sits in the catalog), whose version the ledger
   holds and whose file exists, and a normal run with a down-script deletes exactly that
   version's row.
   */
  lemma RollbackLastTarget(digest: string -> string, files: seq<MigrationFile>, ledger: seq<Record>, outcome: Outcome)
    requires Ordered(ledger)
    ensures var catalog := Scan(digest, Present(files));
      var applied := StatusOf(catalog, ledger).applied;
      var step := RollbackLastStep(digest, files, ledger, outcome);
      && (applied == [] <==> forall e <- catalog :: e.version !in Versions(ledger))
      && (applied == [] ==> step == Step(Failure(NothingToRollback), ledger))
      && (applied != [] ==>
            var target := applied[|applied| - 1].version;
            && target in Versions(ledger) && Lookup(files, target).Some?
            && (Lookup(files, target).value.down.Some? && outcome.Done? ==>
                  step.response == RolledBack(target, "Rolled back " + target)
                  && Versions(step.ledger) == Versions(ledger) - {target}))
  {
    var catalog := Scan(digest, Present(files));
    var applied := StatusOf(catalog, ledger).applied;
    NothingAppliedIff(catalog, Versions(ledger));
    if applied != [] {
      RollbackLastPicks(digest, files, ledger, outcome);
    }
  }

  /** With something applied, rollback-last rolls back the last applied entry's version. */
  lemma RollbackLastPicks(digest: string -> string, files: seq<MigrationFile>, ledger: seq<Record>, outcome: Outcome)
    requires Ordered(ledger)
    requires StatusOf(Scan(digest, Present(files)), ledger).applied != []
    ensures var applied := StatusOf(Scan(digest, Present(files)), ledger).applied;
      var target := applied[|applied| - 1].version;
      var step := RollbackLastStep(digest, files, ledger, outcome);
      && target in Versions(ledger) && Lookup(files, target).Some?
      && (Lookup(files, target).value.down.Some? && outcome.Done? ==>
            step.response == RolledBack(target, "Rolled back " + target)
            && Versions(step.ledger) == Versions(ledger) - {target})
  {
    var applied := StatusOf(Scan(digest, Present(files)), ledger).applied;
    var target := applied[|applied| - 1];
    assert target in applied;
    LookupFindsEntry(digest, files, target);
    if Lookup(files, target.version).value.down.Some? && outcome.Done? {
      RollbackDoneDeletes(files, ledger, target.version);
    }
  }

  /** Nothing is applied exactly when no catalog entry's version is recorded. */
  lemma NothingAppliedIff(catalog: seq<Entry>, versions: set<string>)
    ensures AppliedEntries(catalog, versions) == [] <==> forall e <- catalog :: e.version !in versions
  {
    if AppliedEntries(catalog, versions) != [] {
      var e := AppliedEntries(catalog, versions)[0];
      assert e in AppliedEntries(catalog, versions);
    }
  }

  /** A normal rollback of an applied version that has a down-script deletes exactly its row. */
  lemma RollbackDoneDeletes(files: seq<MigrationFile>, ledger: seq<Record>, version: string)
    requires Ordered(ledger)
    requires version in Versions(ledger) && Lookup(files, version).Some? && Lookup(files, version).value.down.Some?
    ensures var step := RollbackStep(files, ledger, version, false, Done);
      && step.response == RolledBack(version, "Rolled back " + version)
      && Versions(step.ledger) == Versions(ledger) - {version}
  {
    RemoveDeletesOneRow(ledger, version);
  }

  /**
   When the ledger's current version has no file (a row left by a deleted migration),
   rollback-last does not roll back the current version but an older one.
   */
  lemma RollbackLastMissesOrphanCurrent(digest: string -> string, files: seq<MigrationFile>, ledger: seq<Record>, outcome: Outcome)
    requires Ordered(ledger)
    requires StatusOf(Scan(digest, Present(files)), ledger).applied != []
    requires StatusOf(Scan(digest, Present(files)), ledger).currentVersion.Some?
    requires Lookup(files, StatusOf(Scan(digest, Present(files)), ledger).currentVersion.value).None?
    ensures var s := StatusOf(Scan(digest, Present(files)), ledger);
      s.applied[|s.applied| - 1].version != s.currentVersion.value
  {
    var s := StatusOf(Scan(digest, Present(files)), ledger);
    var target := s.applied[|s.applied| - 1];
    assert target in s.applied;
    LookupFindsEntry(digest, files, target);
  }

  // ---------------------------------------------------------------------------------------
  // run_query

  /** The keywords `run_query` refuses, in the order it checks them. */
  const Dangerous: seq<string> := ["DROP", "DELETE", "UPDATE", "INSERT", "ALTER", "TRUNCATE", "CREATE"]

  /** The first keyword of `keywords` that occurs in `text`, if any. */
  function FirstBlocked(text: string, keywords: seq<string>): (r: Option<string>)
    ensures r.None? <==> forall k <- keywords :: !Contains(text, k)
    ensures r.Some? ==> Contains(text, r.value)
    ensures r.Some? ==>
      exists i :: 0 <= i < |keywords| && keywords[i] == r.value && forall j :: 0 <= j < i ==> !Contains(text, keywords[j])
  {
    if keywords == [] then None
    else if Contains(text, keywords[0]) then Some(keywords[0])
    else
      var r := FirstBlocked(text, keywords[1..]);
      assert forall k <- keywords :: k == keywords[0] || k in keywords[1..];
      if r.Some? then
        var i :| 0 <= i < |keywords[1..]| && keywords[1..][i] == r.value
          && forall j :: 0 <= j < i ==> !Contains(text, keywords[1..][j]);
        assert keywords[i + 1] == r.value;
        assert forall j :: 0 < j < i + 1 ==> keywords[j] == keywords[1..][j - 1];
        r
      else r
  }

  /** The keyword `run_query` reports for `query`: the first one found in its upper-cased text. */
  function BlockedKeyword(query: string): (r: Option<string>)
    ensures r.None? <==> forall k <- Dangerous :: !Contains(Upper(query), k)
    ensures r.Some? ==> r.value in Dangerous && Contains(Upper(query), r.value)
  {
    FirstBlocked(Upper(query), Dangerous)
  }

  /** The error a blocked query gets. */
  function SafetyBlockMessage(keyword: string): string
  {
    "Safety block: '" + keyword + "' statements not allowed. Use migrations for schema changes."
  }

  /** The safety check of `run_query`: a scan of the keyword list that returns on the first hit. */
  method CheckQuery(query: string) returns (blocked: Option<string>)
    ensures blocked == BlockedKeyword(query)
  {
    var upper := Upper(query);
    var keywords := Dangerous;
    for i := 0 to |keywords|
      invariant FirstBlocked(upper, keywords) == FirstBlocked(upper, keywords[i..])
    {
      FirstBlockedStep(upper, keywords, i);
      if Contains(upper, keywords[i]) {
        return Some(keywords[i]);
      }
    }
    return None;
  }

  /** One step of the scan: the keyword at `i` is reported if it occurs, else the scan goes on. */
  lemma FirstBlockedStep(text: string, keywords: seq<string>, i: nat)
    requires i < |keywords|
    ensures FirstBlocked(text, keywords[i..])
      == if Contains(text, keywords[i]) then Some(keywords[i]) else FirstBlocked(text, keywords[i + 1..])
  {
    assert keywords[i..][0] == keywords[i] && keywords[i..][1..] == keywords[i + 1..];
  }

  /** What the driver answers a query that was let through; it is not modelled, so it is an input. */
  datatype QueryReply<V> = ResultSet(columns: seq<string>, rows: seq<seq<V>>) | NoResultSet | DriverError(message: string)

  /** The dictionary `run_query` returns. */
  datatype QueryResult<V> =
    | Rows(columns: seq<string>, rows: seq<seq<V>>, rowCount: nat)
    | Message(text: string)
    | Error(text: string)

  /**
   `run_query`: a blocked query is answered with the safety message and never reaches the
   cursor; any other query is executed once, and the driver's answer is passed on.
   */
  method RunQuery<V>(query: string, cursor: Cursor, reply: QueryReply<V>) returns (r: QueryResult<V>)
    modifies cursor
    ensures BlockedKeyword(query).Some? ==>
      r == Error(SafetyBlockMessage(BlockedKeyword(query).value)) && cursor.calls == old(cursor.calls)
    ensures BlockedKeyword(query).None? ==> cursor.calls == old(cursor.calls) + [Execute(query)]
    ensures BlockedKeyword(query).None? && reply.ResultSet? ==> r == Rows(reply.columns, reply.rows, |reply.rows|)
    ensures BlockedKeyword(query).None? && reply.NoResultSet? ==> r == Message("Query executed, no results returned")
    ensures BlockedKeyword(query).None? && reply.DriverError? ==> r == Error(reply.message)
  {
    var blocked := CheckQuery(query);
    if blocked.Some? {
      return Error(SafetyBlockMessage(blocked.value));
    }
    cursor.calls := cursor.calls + [Execute(query)];
    match reply {
      case ResultSet(columns, rows) => r := Rows(columns, rows, |rows|);
      case NoResultSet => r := Message("Query executed, no results returned");
      case DriverError(message) => r := Error(message);
    }
  }

  /** The guard ignores letter case: a query and its lower-cased form are blocked alike. */
  lemma BlockedIgnoresCase(query: string)
    ensures BlockedKeyword(Lower(query)) == BlockedKeyword(query)
  {
    assert Upper(Lower(query)) == Upper(query);
  }

  /** A character of `r` that `s` lacks rules out `r` occurring in `s`. */
  lemma MissingChar(s: string, r: string, c: char)
    requires c in r && c !in s
    ensures !Contains(s, r)
  {
    var k :| 0 <= k < |r| && r[k] == c;
    forall i | 0 <= i <= |s| - |r| ensures !OccursAt(s, r, i) {
      assert s[i + k] in s;
      assert s[i..i + |r|][k] == s[i + k];
    }
  }

  /**
   The guard matches substrings, not statements: a query that only names a `created_at`
   column is blocked as a CREATE.
   */
  lemma CreatedAtIsBlocked()
    ensures BlockedKeyword("created_at") == Some("CREATE")
  {
    var u := Upper("created_at");
    assert u == "CREATED_AT";
    MissingChar(u, "DROP", 'O');
    MissingChar(u, "DELETE", 'L');
    MissingChar(u, "UPDATE", 'U');
    MissingChar(u, "INSERT", 'I');
    MissingChar(u, "ALTER", 'L');
    MissingChar(u, "TRUNCATE", 'U');
    assert OccursAt(u, "CREATE", 0);
  }

  // ---------------------------------------------------------------------------------------
  // read_migration_sql

  /** An entry answers to its version and to its full version. */
  predicate Matches(e: Entry, key: string)
  {
    e.version == key || e.fullVersion == key
  }

  /** The position of the first catalog entry that answers to `key`. */
  function FirstMatch(catalog: seq<Entry>, key: string): (r: Option<nat>)
    ensures r.None? <==> forall e <- catalog :: !Matches(e, key)
    ensures r.Some? ==> r.value < |catalog| && Matches(catalog[r.value], key)
    ensures r.Some? ==> forall j :: 0 <= j < r.value ==> !Matches(catalog[j], key)
  {
    if catalog == [] then None
    else if Matches(catalog[0], key) then Some(0)
    else
      assert forall e <- catalog :: e == catalog[0] || e in catalog[1..];
      match FirstMatch(catalog[1..], key)
      case None => None
      case Some(i) =>
        assert forall j :: 0 < j < i + 1 ==> catalog[j] == catalog[1..][j - 1];
        Some(i + 1)
  }

  /**
   `read_migration_sql` as a value: the text of the matching migration's up- or down-file
   (any direction but "up" means down), or the message naming what is missing. The path is
   the up-file's with `.up.sql` replaced by the direction's suffix.
   */
  function ReadSql(digest: string -> string, files: seq<MigrationFile>, key: string, direction: string): (r: string)
    ensures || r == "Migration " + key + " not found"
            || StartsWithText(r, "File not found: ")
            || exists f <- files :: r == f.up || f.down == Some(r)
  {
    var catalog := Scan(digest, Present(files));
    match FirstMatch(catalog, key)
    case None => "Migration " + key + " not found"
    case Some(k) =>
      var f := files[k];
      var suffix := if direction == "up" then UpSuffix else DownSuffix;
      var path := ReplaceAll(f.filename, UpSuffix, suffix);
      if path == f.filename then f.up
      else if path == DownFilename(f.filename) && f.down.Some? then f.down.value
      else "File not found: " + path
  }

  /** The search loop of `read_migration_sql`: it breaks at the first entry that answers to `key`. */
  method FindMigration(available: seq<Entry>, key: string) returns (found: Option<nat>)
    ensures found == FirstMatch(available, key)
  {
    found := None;
    var i := 0;
    while i < |available|
      invariant 0 <= i <= |available|
      invariant found.None? ==> forall j :: 0 <= j < i ==> !Matches(available[j], key)
      invariant found.Some? ==> found == FirstMatch(available, key)
      decreases |available| - i, found.None?
    {
      if available[i].version == key || available[i].fullVersion == key {
        FirstMatchAt(available, key, i);
        found := Some(i);
        break;
      }
      i := i + 1;
    }
  }

  /** `read_migration_sql` on the engine. */
  method ReadMigrationSql(engine: MigrationEngine, key: string, direction: string) returns (text: string)
    ensures text == ReadSql(engine.digest, engine.Files(), key, direction)
  {
    var available := engine.GetAvailableMigrations();
    assert available == Scan(engine.digest, Present(engine.Files()));
    var found := FindMigration(available, key);
    if found.None? {
      return "Migration " + key + " not found";
    }
    var f := engine.Files()[found.value];
    var suffix := if direction == "up" then UpSuffix else DownSuffix;
    var path := ReplaceAll(f.filename, UpSuffix, suffix);
    if path == f.filename {
      text := f.up;
    } else if path == DownFilename(f.filename) && f.down.Some? {
      text := f.down.value;
    } else {
      text := "File not found: " + path;
    }
  }

  lemma FirstMatchAt(catalog: seq<Entry>, key: string, i: nat)
    requires i < |catalog| && Matches(catalog[i], key)
    requires forall j :: 0 <= j < i ==> !Matches(catalog[j], key)
    ensures FirstMatch(catalog, key) == Some(i)
  {
    assert catalog[i] in catalog;
  }

  /**
   Reading "up" returns the up-script of the first matching migration: the very text whose
   checksum the catalog lists for it.
   */
  lemma ReadUpIsScript(digest: string -> string, files: seq<MigrationFile>, key: string)
    requires FirstMatch(Scan(digest, Present(files)), key).Some?
    ensures var k := FirstMatch(Scan(digest, Present(files)), key).value;
      && ReadSql(digest, files, key, "up") == files[k].up
      && Checksum(digest, ReadSql(digest, files, key, "up")) == Scan(digest, Present(files))[k].checksum
  {
    var k := FirstMatch(Scan(digest, Present(files)), key).value;
    ReplaceAllSelf(files[k].filename, UpSuffix);
  }

  /**
   Reading any other direction of an up-file returns its down-script, or names the down path
   that rollback would need when there is none.
   */
  lemma ReadDownIsRollbackScript(digest: string -> string, files: seq<MigrationFile>, key: string, direction: string)
    requires Sorted(files) && direction != "up"
    requires FirstMatch(Scan(digest, Present(files)), key).Some?
    ensures var f := files[FirstMatch(Scan(digest, Present(files)), key).value];
      ReadSql(digest, files, key, direction)
        == if f.down.Some? then f.down.value else "File not found: " + DownFilename(f.filename)
  {
    var catalog := Scan(digest, Present(files));
    var k := FirstMatch(catalog, key).value;
    assert k < |files|;
    var f := files[k];
    assert f in files;
    DownPathDiffers(f.filename);
  }

  /** The down path of an up-file is never the up path itself. */
  lemma DownPathDiffers(filename: string)
    requires IsUpFile(filename)
    ensures DownFilename(filename) != filename
  {
    assert Contains(filename, UpSuffix) by {
      assert OccursAt(filename, UpSuffix, |filename| - |UpSuffix|);
    }
    ReplaceAllLonger(filename, UpSuffix, DownSuffix);
  }

  /** A key that no version and no full version equals is reported as not found. */
  lemma ReadNotFound(digest: string -> string, files: seq<MigrationFile>, key: string, direction: string)
    requires forall f <- files :: ParseFilename(f.filename).version != key && ParseFilename(f.filename).fullVersion != key
    ensures ReadSql(digest, files, key, direction) == "Migration " + key + " not found"
  {
    var catalog := Scan(digest, Present(files));
    forall e <- catalog ensures !Matches(e, key) {
      var k :| 0 <= k < |catalog| && catalog[k] == e;
      assert files[k] in files;
    }
  }

  // ---------------------------------------------------------------------------------------
  // check_drift

  /** The dictionary `check_drift` returns; `details` is present only when there is drift. */
  datatype DriftCheck = DriftCheck(driftDetected: bool, message: string, details: Option<seq<DriftEntry>>)

  /** `check_drift` over a status report. */
  function CheckDrift(report: Report): (r: DriftCheck)
    ensures r.driftDetected <==> report.drift != []
    ensures r.details.Some? <==> r.driftDetected
    ensures r.details.Some? ==> r.details.value == report.drift
  {
    if report.drift != [] then
      DriftCheck(true, "WARNING: Migration files have been modified after being applied!", Some(report.drift))
    else
      DriftCheck(false, "No drift detected. All migration checksums match.", None)
  }

  /**
   Drift is reported exactly when some applied file's checksum differs from the one its ledger
   row recorded, and the details then list the status's drift entries.
   */
  lemma DriftDetectedExactly(digest: string -> string, files: seq<MigrationFile>, ledger: seq<Record>)
    requires Ordered(ledger)
    ensures var catalog := Scan(digest, Present(files));
      var check := CheckDrift(StatusOf(catalog, ledger));
      && (check.driftDetected <==> exists e <- catalog, x <- ledger :: e.version == x.version && e.checksum != x.checksum)
      && (check.driftDetected ==> check.details == Some(StatusOf(catalog, ledger).drift))
  {
    DriftNonEmptyIff(Scan(digest, Present(files)), ledger);
  }

  /** The drift list is non-empty exactly when some catalog entry disagrees with its ledger row. */
  lemma DriftNonEmptyIff(catalog: seq<Entry>, ledger: seq<Record>)
    requires Ordered(ledger)
    ensures StatusOf(catalog, ledger).drift != []
      <==> exists e <- catalog, x <- ledger :: e.version == x.version && e.checksum != x.checksum
  {
    var drift := StatusOf(catalog, ledger).drift;
    if drift != [] {
      var d := drift[0];
      DriftSound(catalog, ledger, d);
      var e :| e in catalog && e.version == d.version && e.checksum == d.actual && e.version in Versions(ledger);
      var x :| x in ledger && x.version == d.version && x.checksum == d.expected;
      assert e.version == x.version && e.checksum != x.checksum;
    }
    if exists e <- catalog, x <- ledger :: e.version == x.version && e.checksum != x.checksum {
      var e, x :| e in catalog && x in ledger && e.version == x.version && e.checksum != x.checksum;
      DriftExact(catalog, ledger, e, x);
      assert DriftEntry(e.version, x.checksum, e.checksum) in drift;
    }
  }

  /** Once every applied file has its recorded content again, check_drift reports no drift. */
  lemma DriftClearedWhenRestored(digest: string -> string, files: seq<MigrationFile>, ledger: seq<Record>)
    requires Ordered(ledger)
    requires forall f <- files, x <- ledger :: ParseFilename(f.filename).version == x.version ==> x.checksum == Checksum(digest, f.up)
    ensures CheckDrift(StatusOf(Scan(digest, Present(files)), ledger))
      == DriftCheck(false, "No drift detected. All migration checksums match.", None)
  {
    NoDriftWhenRestored(digest, files, ledger);
  }
}
