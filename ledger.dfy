/**
 The applied-migration ledger, the `schema_migrations` table: one row per applied migration,
 read back in ascending version order. Apply inserts exactly one row and rollback deletes
 exactly one; nothing else changes it.
 */
module Ledger {
  import opened Wrappers
  import opened Text

  /** A row of schema_migrations; `appliedAt` is the timestamp the database assigned. */
  datatype Record = Record(version: string, name: string, checksum: string, appliedAt: string, executionTimeMs: nat)

  /** Rows as `ORDER BY version ASC` returns them from a table keyed by version. */
  predicate Ordered(ledger: seq<Record>)
  {
    forall i, j :: 0 <= i < j < |ledger| ==> Less(ledger[i].version, ledger[j].version)
  }

  /** `{m["version"] for m in applied_list}`. */
  function Versions(ledger: seq<Record>): (vs: set<string>)
    ensures forall r <- ledger :: r.version in vs
    ensures forall v <- vs :: exists r <- ledger :: r.version == v
  {
    set r <- ledger :: r.version
  }

  /** The table after an INSERT, as the ordered read sees it. */
  function Insert(ledger: seq<Record>, rec: Record): (r: seq<Record>)
    ensures |r| == |ledger| + 1
  {
    if ledger == [] then [rec]
    else if Less(rec.version, ledger[0].version) then [rec] + ledger
    else [ledger[0]] + Insert(ledger[1..], rec)
  }

  /** The INSERT adds exactly the new row and keeps every other row. */
  lemma {:induction false} InsertRows(ledger: seq<Record>, rec: Record)
    ensures multiset(Insert(ledger, rec)) == multiset(ledger) + multiset{rec}
    ensures forall x :: x in Insert(ledger, rec) <==> x in ledger || x == rec
  {
    if ledger != [] && !Less(rec.version, ledger[0].version) {
      InsertRows(ledger[1..], rec);
      assert ledger == [ledger[0]] + ledger[1..];
    }
  }

  /** The table after `DELETE ... WHERE version = v`. */
  function Remove(ledger: seq<Record>, v: string): (r: seq<Record>)
    ensures forall x :: x in r <==> x in ledger && x.version != v
    ensures |r| <= |ledger|
  {
    if ledger == [] then []
    else
      var rest := Remove(ledger[1..], v);
      assert forall x :: x in ledger <==> x == ledger[0] || x in ledger[1..];
      (if ledger[0].version == v then [] else [ledger[0]]) + rest
  }

  lemma {:induction false} InsertOrdered(ledger: seq<Record>, rec: Record)
    requires Ordered(ledger) && rec.version !in Versions(ledger)
    ensures Ordered(Insert(ledger, rec))
  {
    if ledger != [] && !Less(rec.version, ledger[0].version) {
      InsertOrdered(ledger[1..], rec);
      InsertAfterHead(ledger, rec);
    } else if ledger != [] {
      InsertAtFront(ledger, rec);
    }
  }

  /** A row that sorts after the first row goes behind it, and the order is kept. */
  lemma InsertAfterHead(ledger: seq<Record>, rec: Record)
    requires Ordered(ledger) && ledger != [] && rec.version !in Versions(ledger)
    requires !Less(rec.version, ledger[0].version) && Ordered(Insert(ledger[1..], rec))
    ensures Ordered(Insert(ledger, rec))
  {
    LessTotal(rec.version, ledger[0].version);
    InsertRows(ledger[1..], rec);
    var rest := Insert(ledger[1..], rec);
    var r := Insert(ledger, rec);
    assert r == [ledger[0]] + rest;
    forall j | 0 < j < |r| ensures Less(r[0].version, r[j].version) {
      assert r[j] == rest[j - 1] && rest[j - 1] in rest;
      if r[j] != rec {
        var k :| 0 <= k < |ledger[1..]| && ledger[1..][k] == r[j];
        assert ledger[k + 1] == r[j];
      }
    }
  }

  /** A row that sorts before the first row goes in front, and the order is kept. */
  lemma InsertAtFront(ledger: seq<Record>, rec: Record)
    requires Ordered(ledger) && ledger != [] && Less(rec.version, ledger[0].version)
    ensures Ordered(Insert(ledger, rec))
  {
    var r := Insert(ledger, rec);
    assert r == [rec] + ledger;
    forall i, j | 0 <= i < j < |r| ensures Less(r[i].version, r[j].version) {
      assert r[j] == ledger[j - 1];
      if i == 0 {
        if j > 1 { LessTransitive(rec.version, ledger[0].version, ledger[j - 1].version); }
      } else {
        assert r[i] == ledger[i - 1];
        assert Less(ledger[i - 1].version, ledger[j - 1].version);
      }
    }
  }

  lemma {:induction false} RemoveOrdered(ledger: seq<Record>, v: string)
    requires Ordered(ledger)
    ensures Ordered(Remove(ledger, v))
  {
    if ledger != [] {
      RemoveOrdered(ledger[1..], v);
      var rest := Remove(ledger[1..], v);
      if ledger[0].version != v {
        var r := [ledger[0]] + rest;
        forall j | 0 < j < |r| ensures Less(r[0].version, r[j].version) {
          assert r[j] in rest;
          var k :| 0 <= k < |ledger[1..]| && ledger[1..][k] == r[j];
          assert ledger[k + 1] == r[j];
        }
      }
    }
  }

  /**
   A successful apply adds exactly one row, for a version that was not there, and keeps every
   other row: the versions grow by that version and the ordering is kept.
   */
  lemma InsertAddsOneRow(ledger: seq<Record>, rec: Record)
    requires Ordered(ledger) && rec.version !in Versions(ledger)
    ensures Ordered(Insert(ledger, rec))
    ensures Versions(Insert(ledger, rec)) == Versions(ledger) + {rec.version}
    ensures multiset(Insert(ledger, rec)) == multiset(ledger) + multiset{rec}
  {
    InsertOrdered(ledger, rec);
    InsertRows(ledger, rec);
  }

  /**
   A successful rollback deletes exactly the row of that version: every other row stays, the
   ordering is kept, and the version is no longer applied.
   */
  lemma RemoveDeletesOneRow(ledger: seq<Record>, v: string)
    requires Ordered(ledger)
    ensures Ordered(Remove(ledger, v))
    ensures Versions(Remove(ledger, v)) == Versions(ledger) - {v}
    ensures forall x <- ledger :: x.version != v ==> x in Remove(ledger, v)
  {
    RemoveOrdered(ledger, v);
  }

  /** Rolling back right after applying gives back the ledger as it was. */
  lemma {:induction false} RemoveInsertRoundTrip(ledger: seq<Record>, rec: Record)
    requires rec.version !in Versions(ledger)
    ensures Remove(Insert(ledger, rec), rec.version) == ledger
  {
    if ledger != [] {
      assert ledger[0].version != rec.version;
      if Less(rec.version, ledger[0].version) {
        RemoveAbsent(ledger, rec.version);
        assert ([rec] + ledger)[1..] == ledger;
      } else {
        RemoveInsertRoundTrip(ledger[1..], rec);
        assert ([ledger[0]] + Insert(ledger[1..], rec))[1..] == Insert(ledger[1..], rec);
      }
    }
  }

  lemma {:induction false} RemoveAbsent(ledger: seq<Record>, v: string)
    requires v !in Versions(ledger)
    ensures Remove(ledger, v) == ledger
  {
    if ledger != [] {
      VersionsTail(ledger);
      assert ledger[0] in ledger;
      RemoveAbsent(ledger[1..], v);
      calc {
        Remove(ledger, v);
        [ledger[0]] + Remove(ledger[1..], v);
        [ledger[0]] + ledger[1..];
        ledger;
      }
    }
  }

  /** Dropping the first row keeps only versions the ledger had. */
  lemma VersionsTail(ledger: seq<Record>)
    requires ledger != []
    ensures Versions(ledger[1..]) <= Versions(ledger)
  {
    forall v | v in Versions(ledger[1..]) ensures v in Versions(ledger) {
      var r :| r in ledger[1..] && r.version == v;
      assert r in ledger;
    }
  }

  /** `applied_list[-1]["version"] if applied_list else None`. */
  function LastVersion(ledger: seq<Record>): (r: Option<string>)
    ensures r.None? <==> ledger == []
    ensures r.Some? ==> r.value == ledger[|ledger| - 1].version
  {
    if ledger == [] then None else Some(ledger[|ledger| - 1].version)
  }

  /** On an ordered ledger the last row holds the greatest version. */
  lemma LastVersionIsGreatest(ledger: seq<Record>)
    requires Ordered(ledger) && ledger != []
    ensures forall r <- ledger :: r.version == LastVersion(ledger).value || Less(r.version, LastVersion(ledger).value)
  {
    forall r <- ledger ensures r.version == LastVersion(ledger).value || Less(r.version, LastVersion(ledger).value) {
      var i :| 0 <= i < |ledger| && ledger[i] == r;
      if i < |ledger| - 1 {
        assert Less(ledger[i].version, ledger[|ledger| - 1].version);
      }
    }
  }

  /** `{m["version"]: m["checksum"] for m in applied_list}[v]`: the checksum of the last row for `v`. */
  function RecordedChecksum(ledger: seq<Record>, v: string): (r: Option<string>)
    ensures r.None? <==> v !in Versions(ledger)
    ensures r.Some? ==> exists x <- ledger :: x.version == v && x.checksum == r.value
  {
    if ledger == [] then None
    else
      var last := ledger[|ledger| - 1];
      var init := ledger[..|ledger| - 1];
      assert forall x <- ledger :: x in init || x == last;
      if last.version == v then Some(last.checksum) else RecordedChecksum(init, v)
  }

  /** With unique versions, the recorded checksum of a version is that of its one row. */
  lemma {:induction false} RecordedChecksumOfRow(ledger: seq<Record>, x: Record)
    requires Ordered(ledger) && x in ledger
    ensures RecordedChecksum(ledger, x.version) == Some(x.checksum)
  {
    var n := |ledger|;
    var init := ledger[..n - 1];
    if ledger[n - 1] != x {
      var i :| 0 <= i < n && ledger[i] == x;
      assert i < n - 1;
      assert Less(x.version, ledger[n - 1].version);
      LessIrreflexive(x.version);
      assert x in init;
      assert Ordered(init);
      RecordedChecksumOfRow(init, x);
    }
  }
}
