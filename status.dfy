/**
 `get_status` of src/engine.py: the catalog split into pending and applied migrations by the
 ledger's versions, the drift list comparing the checksums recorded in the ledger with those of
 the files now on disk, and the current version read from the ledger.
 */
module Status {
  import opened Wrappers
  import opened Text
  import opened Catalog
  import opened Ledger

  /** One drift entry: the ledger's checksum as `expected`, the file's as `actual`. */
  datatype DriftEntry = DriftEntry(version: string, expected: string, actual: string)

  /** The status report. */
  datatype Report = Report(pending: seq<Entry>, applied: seq<Entry>, drift: seq<DriftEntry>, currentVersion: Option<string>)

  /** `[m for m in available if m["version"] not in applied_versions]`. */
  function PendingEntries(catalog: seq<Entry>, versions: set<string>): (r: seq<Entry>)
    ensures forall e :: e in r <==> e in catalog && e.version !in versions
  {
    if catalog == [] then []
    else
      var last := catalog[|catalog| - 1];
      var init := catalog[..|catalog| - 1];
      assert forall e :: e in catalog <==> e in init || e == last;
      PendingEntries(init, versions) + (if last.version !in versions then [last] else [])
  }

  /** `[m for m in available if m["version"] in applied_versions]`. */
  function AppliedEntries(catalog: seq<Entry>, versions: set<string>): (r: seq<Entry>)
    ensures forall e :: e in r <==> e in catalog && e.version in versions
  {
    if catalog == [] then []
    else
      var last := catalog[|catalog| - 1];
      var init := catalog[..|catalog| - 1];
      assert forall e :: e in catalog <==> e in init || e == last;
      AppliedEntries(init, versions) + (if last.version in versions then [last] else [])
  }

  /**
   Pending and applied partition the catalog: every entry lands in exactly one of them, as
   often as it occurs, and the two lengths add up to the catalog's.
   */
  lemma {:induction false} Partition(catalog: seq<Entry>, versions: set<string>)
    ensures multiset(PendingEntries(catalog, versions)) + multiset(AppliedEntries(catalog, versions)) == multiset(catalog)
    ensures |PendingEntries(catalog, versions)| + |AppliedEntries(catalog, versions)| == |catalog|
  {
    if catalog != [] {
      var init := catalog[..|catalog| - 1];
      var last := catalog[|catalog| - 1];
      Partition(init, versions);
      PartitionLast(catalog, versions);
    }
  }

  /** The last catalog entry goes to exactly one of the two lists. */
  lemma PartitionLast(catalog: seq<Entry>, versions: set<string>)
    requires catalog != []
    ensures var init := catalog[..|catalog| - 1];
      var last := catalog[|catalog| - 1];
      && multiset(PendingEntries(catalog, versions)) + multiset(AppliedEntries(catalog, versions))
           == multiset(PendingEntries(init, versions)) + multiset(AppliedEntries(init, versions)) + multiset{last}
      && |PendingEntries(catalog, versions)| + |AppliedEntries(catalog, versions)|
           == |PendingEntries(init, versions)| + |AppliedEntries(init, versions)| + 1
      && multiset(catalog) == multiset(init) + multiset{last}
      && |catalog| == |init| + 1
  {
    var init := catalog[..|catalog| - 1];
    var last := catalog[|catalog| - 1];
    assert catalog == init + [last];
    if last.version in versions {
      assert PendingEntries(catalog, versions) == PendingEntries(init, versions);
      assert AppliedEntries(catalog, versions) == AppliedEntries(init, versions) + [last];
    } else {
      assert PendingEntries(catalog, versions) == PendingEntries(init, versions) + [last];
      assert AppliedEntries(catalog, versions) == AppliedEntries(init, versions);
    }
  }

  /** Both lists keep catalog order: filtering a concatenation filters each part in turn. */
  lemma FiltersKeepOrder(a: seq<Entry>, b: seq<Entry>, versions: set<string>)
    ensures PendingEntries(a + b, versions) == PendingEntries(a, versions) + PendingEntries(b, versions)
    ensures AppliedEntries(a + b, versions) == AppliedEntries(a, versions) + AppliedEntries(b, versions)
  {
    PendingKeepsOrder(a, b, versions);
    AppliedKeepsOrder(a, b, versions);
  }

  lemma {:induction false} PendingKeepsOrder(a: seq<Entry>, b: seq<Entry>, versions: set<string>)
    ensures PendingEntries(a + b, versions) == PendingEntries(a, versions) + PendingEntries(b, versions)
  {
    if b == [] {
      assert a + b == a;
    } else {
      var bi := b[..|b| - 1];
      var last := b[|b| - 1];
      var step := if last.version !in versions then [last] else [];
      PendingKeepsOrder(a, bi, versions);
      FiltersSnoc(a + bi, last, versions);
      FiltersSnoc(bi, last, versions);
      SnocSplit(a, b);
      calc {
        PendingEntries(a + b, versions);
        PendingEntries((a + bi) + [last], versions);
        PendingEntries(a + bi, versions) + step;
        (PendingEntries(a, versions) + PendingEntries(bi, versions)) + step;
        { ConcatAssoc(PendingEntries(a, versions), PendingEntries(bi, versions), step); }
        PendingEntries(a, versions) + (PendingEntries(bi, versions) + step);
        PendingEntries(a, versions) + PendingEntries(b, versions);
      }
    }
  }

  lemma {:induction false} AppliedKeepsOrder(a: seq<Entry>, b: seq<Entry>, versions: set<string>)
    ensures AppliedEntries(a + b, versions) == AppliedEntries(a, versions) + AppliedEntries(b, versions)
  {
    if b == [] {
      assert a + b == a;
    } else {
      var bi := b[..|b| - 1];
      var last := b[|b| - 1];
      var step := if last.version in versions then [last] else [];
      AppliedKeepsOrder(a, bi, versions);
      FiltersSnoc(a + bi, last, versions);
      FiltersSnoc(bi, last, versions);
      SnocSplit(a, b);
      calc {
        AppliedEntries(a + b, versions);
        AppliedEntries((a + bi) + [last], versions);
        AppliedEntries(a + bi, versions) + step;
        (AppliedEntries(a, versions) + AppliedEntries(bi, versions)) + step;
        { ConcatAssoc(AppliedEntries(a, versions), AppliedEntries(bi, versions), step); }
        AppliedEntries(a, versions) + (AppliedEntries(bi, versions) + step);
        AppliedEntries(a, versions) + AppliedEntries(b, versions);
      }
    }
  }

  /** `b` is its prefix and its last element, and so is `a + b` with the prefix `a + bi`. */
  lemma SnocSplit<T>(a: seq<T>, b: seq<T>)
    requires b != []
    ensures b == b[..|b| - 1] + [b[|b| - 1]]
    ensures a + b == (a + b[..|b| - 1]) + [b[|b| - 1]]
  {
  }

  /** Appending one entry to the catalog appends it to the list its version selects. */
  lemma FiltersSnoc(c: seq<Entry>, e: Entry, versions: set<string>)
    ensures PendingEntries(c + [e], versions) == PendingEntries(c, versions) + (if e.version !in versions then [e] else [])
    ensures AppliedEntries(c + [e], versions) == AppliedEntries(c, versions) + (if e.version in versions then [e] else [])
  {
    assert (c + [e])[..|c|] == c;
    assert (c + [e])[|c|] == e;
  }

  /** The drift entry an applied catalog entry contributes, if any. */
  function DriftOf(e: Entry, ledger: seq<Record>): (r: Option<DriftEntry>)
  {
    match RecordedChecksum(ledger, e.version)
    case None => None
    case Some(c) => if e.checksum != c then Some(DriftEntry(e.version, c, e.checksum)) else None
  }

  /** The drift list over the applied entries, in their order. */
  function Drift(applied: seq<Entry>, ledger: seq<Record>): (r: seq<DriftEntry>)
    ensures |r| <= |applied|
    ensures forall d <- r :: exists e <- applied :: DriftOf(e, ledger) == Some(d)
    ensures forall e <- applied :: DriftOf(e, ledger).Some? ==> DriftOf(e, ledger).value in r
  {
    if applied == [] then []
    else
      var last := applied[|applied| - 1];
      var init := applied[..|applied| - 1];
      assert forall e <- applied :: e in init || e == last;
      var step := DriftOf(last, ledger);
      Drift(init, ledger) + (if step.Some? then [step.value] else [])
  }

  /**
   The drift list keeps order and multiplicity: one entry contributes its drift entry exactly
   when it has one, and a concatenation contributes those of each part in turn.
   */
  lemma {:induction false} DriftInOrder(a: seq<Entry>, b: seq<Entry>, e: Entry, ledger: seq<Record>)
    ensures Drift([e], ledger) == if DriftOf(e, ledger).Some? then [DriftOf(e, ledger).value] else []
    ensures Drift(a + b, ledger) == Drift(a, ledger) + Drift(b, ledger)
  {
    assert [e][..0] == [];
    if b == [] {
      assert a + b == a;
    } else {
      var init := b[..|b| - 1];
      var last := b[|b| - 1];
      var step := if DriftOf(last, ledger).Some? then [DriftOf(last, ledger).value] else [];
      assert (a + b)[..|a + b| - 1] == a + init;
      assert (a + b)[|a + b| - 1] == last;
      DriftInOrder(a, init, e, ledger);
      calc {
        Drift(a + b, ledger);
        Drift(a + init, ledger) + step;
        (Drift(a, ledger) + Drift(init, ledger)) + step;
        { ConcatAssoc(Drift(a, ledger), Drift(init, ledger), step); }
        Drift(a, ledger) + Drift(b, ledger);
      }
    }
  }

  /**
   A report accounts for the catalog: every entry is pending or applied, there is at most one
   drift entry per applied entry, and there is a current version exactly when the ledger has
   rows.
   */
  predicate ReportCovers(catalog: seq<Entry>, ledger: seq<Record>, r: Report)
  {
    && |r.pending| + |r.applied| == |catalog|
    && |r.drift| <= |r.applied|
    && (r.currentVersion.None? <==> ledger == [])
  }

  /** The whole report; the current version is the last ledger row's, or none. */
  function StatusOf(catalog: seq<Entry>, ledger: seq<Record>): (r: Report)
    ensures ReportCovers(catalog, ledger, r)
  {
    var versions := Versions(ledger);
    Partition(catalog, versions);
    var applied := AppliedEntries(catalog, versions);
    Report(PendingEntries(catalog, versions), applied, Drift(applied, ledger), LastVersion(ledger))
  }

  /**
   Drift lists exactly the applied entries whose checksum differs from the one recorded for
   their version, with the ledger's value as `expected` and the file's as `actual`.
   */
  lemma DriftExact(catalog: seq<Entry>, ledger: seq<Record>, e: Entry, x: Record)
    requires Ordered(ledger)
    requires e in catalog && x in ledger && x.version == e.version
    ensures DriftEntry(e.version, x.checksum, e.checksum) in StatusOf(catalog, ledger).drift <==> x.checksum != e.checksum
  {
    RecordedChecksumOfRow(ledger, x);
    var s := StatusOf(catalog, ledger);
    assert e in s.applied;
    if DriftEntry(e.version, x.checksum, e.checksum) in s.drift {
      var e' :| e' in s.applied && DriftOf(e', ledger) == Some(DriftEntry(e.version, x.checksum, e.checksum));
      assert e'.version == e.version && e'.checksum == e.checksum;
    }
  }

  /** Every drift entry belongs to an applied entry and names the ledger's and the file's checksums. */
  lemma DriftSound(catalog: seq<Entry>, ledger: seq<Record>, d: DriftEntry)
    requires d in StatusOf(catalog, ledger).drift
    ensures exists e <- catalog :: e.version == d.version && e.checksum == d.actual && e.version in Versions(ledger)
    ensures exists x <- ledger :: x.version == d.version && x.checksum == d.expected
    ensures d.expected != d.actual
  {
    var s := StatusOf(catalog, ledger);
    var e :| e in s.applied && DriftOf(e, ledger) == Some(d);
  }

  /**
   When every file whose version is in the ledger has the content that was recorded for it,
   there is no drift: editing a file and restoring it clears the drift it caused.
   */
  lemma NoDriftWhenRestored(digest: string -> string, files: seq<MigrationFile>, ledger: seq<Record>)
    requires Ordered(ledger)
    requires forall f <- files, x <- ledger :: ParseFilename(f.filename).version == x.version ==> x.checksum == Checksum(digest, f.up)
    ensures StatusOf(Scan(digest, Present(files)), ledger).drift == []
  {
    var catalog := Scan(digest, Present(files));
    var applied := AppliedEntries(catalog, Versions(ledger));
    forall e | e in applied ensures DriftOf(e, ledger).None? {
      var k :| 0 <= k < |catalog| && catalog[k] == e;
      assert e == ScanFile(digest, files[k]);
      var x :| x in ledger && x.version == e.version;
      RecordedChecksumOfRow(ledger, x);
      assert x.checksum == e.checksum;
    }
    NoDriftEntries(applied, ledger);
  }

  lemma {:induction false} NoDriftEntries(applied: seq<Entry>, ledger: seq<Record>)
    requires forall e <- applied :: DriftOf(e, ledger).None?
    ensures Drift(applied, ledger) == []
  {
    if applied != [] {
      NoDriftEntries(applied[..|applied| - 1], ledger);
    }
  }

  /**
   The current version is the greatest version in the ledger, and it may name a version no
   catalog file has.
   */
  lemma CurrentVersionIsGreatest(catalog: seq<Entry>, ledger: seq<Record>)
    requires Ordered(ledger) && ledger != []
    ensures StatusOf(catalog, ledger).currentVersion.Some?
    ensures var v := StatusOf(catalog, ledger).currentVersion.value;
      v in Versions(ledger) && forall x <- ledger :: x.version == v || Less(x.version, v)
  {
    LastVersionIsGreatest(ledger);
  }

  /** With an empty ledger nothing is applied, everything is pending, and there is no current version. */
  lemma EmptyLedgerAllPending(catalog: seq<Entry>)
    ensures StatusOf(catalog, []).pending == catalog
    ensures StatusOf(catalog, []).applied == [] && StatusOf(catalog, []).currentVersion == None
  {
    assert Versions([]) == {};
    PendingAll(catalog, {});
  }

  lemma {:induction false} PendingAll(catalog: seq<Entry>, versions: set<string>)
    requires forall e <- catalog :: e.version !in versions
    ensures PendingEntries(catalog, versions) == catalog
  {
    if catalog != [] {
      var init := catalog[..|catalog| - 1];
      var last := catalog[|catalog| - 1];
      assert catalog == init + [last];
      forall e | e in init ensures e.version !in versions {
        assert e in catalog;
      }
      PendingAll(init, versions);
      assert last in catalog;
    }
  }

  /** The drift loop of get_status, appending one entry per mismatching applied migration. */
  method DetectDrift(applied: seq<Entry>, ledger: seq<Record>) returns (drift: seq<DriftEntry>)
    ensures drift == Drift(applied, ledger)
  {
    drift := [];
    for i := 0 to |applied|
      invariant drift == Drift(applied[..i], ledger)
    {
      assert applied[..i + 1][..i] == applied[..i];
      var recorded := RecordedChecksum(ledger, applied[i].version);
      if recorded.Some? && applied[i].checksum != recorded.value {
        drift := drift + [DriftEntry(applied[i].version, recorded.value, applied[i].checksum)];
      }
    }
    assert applied[..|applied|] == applied;
  }
}
