/**
 The authoring rules of `create_migration` (src/engine.py): the next version number, the
 sanitised name, and the text written into the new up- and down-files.
 */
module Authoring {
  import opened Wrappers
  import opened Text
  import opened Catalog

  /** The version chosen for a new migration, or the version text `int()` rejects. */
  datatype Versioning = NextVersion(version: string) | InvalidVersion(text: string)

  /** The first catalog version that is not a decimal number, in catalog order. */
  function FirstInvalid(catalog: seq<Entry>): (r: Option<string>)
    ensures r.None? <==> forall e <- catalog :: IsDigits(e.version)
    ensures r.Some? ==> !IsDigits(r.value) && exists e <- catalog :: e.version == r.value
  {
    if catalog == [] then None
    else if !IsDigits(catalog[0].version) then Some(catalog[0].version)
    else
      assert forall e <- catalog :: e == catalog[0] || e in catalog[1..];
      FirstInvalid(catalog[1..])
  }

  /** `max(int(m["version"]) for m in existing)`. */
  function MaxVersion(catalog: seq<Entry>): (m: nat)
    requires catalog != [] && forall e <- catalog :: IsDigits(e.version)
    ensures forall e <- catalog :: ParseNat(e.version) <= m
    ensures exists e <- catalog :: ParseNat(e.version) == m
  {
    if |catalog| == 1 then ParseNat(catalog[0].version)
    else
      var rest := MaxVersion(catalog[1..]);
      var first := ParseNat(catalog[0].version);
      assert forall e <- catalog :: e == catalog[0] || e in catalog[1..];
      if first < rest then rest else first
  }

  /**
   The next version: "001" for an empty catalog, otherwise the largest version plus one padded
   to three digits; a version that is not a number stops the choice.
   */
  function ChooseVersion(catalog: seq<Entry>): (r: Versioning)
    ensures catalog == [] ==> r == NextVersion("001")
    ensures r.InvalidVersion? ==> !IsDigits(r.text) && exists e <- catalog :: e.version == r.text
  {
    if catalog == [] then NextVersion("001")
    else match FirstInvalid(catalog)
      case Some(bad) => InvalidVersion(bad)
      case None => NextVersion(Pad3(MaxVersion(catalog) + 1))
  }

  /**
   A version is chosen exactly when every catalog version is a number. It is then a digit string
   of at least three characters whose value is one more than the largest existing one (or 1),
   so it differs from every existing version.
   */
  lemma ChooseVersionFresh(catalog: seq<Entry>)
    ensures ChooseVersion(catalog).NextVersion? <==> forall e <- catalog :: IsDigits(e.version)
    ensures ChooseVersion(catalog).NextVersion? ==>
      var v := ChooseVersion(catalog).version;
      && IsDigits(v) && |v| >= 3
      && (catalog == [] ==> ParseNat(v) == 1)
      && (forall e <- catalog :: ParseNat(e.version) < ParseNat(v) && e.version != v)
      && (exists e <- catalog :: ParseNat(v) == ParseNat(e.version) + 1) != (catalog == [])
  {
    if catalog == [] {
      assert IsDigits("001");
      assert ParseNat("001") == 1 by {
        assert "001"[..2] == "00" && "00"[..1] == "0";
      }
    } else if FirstInvalid(catalog).None? {
      var m := MaxVersion(catalog);
      Pad3RoundTrip(m + 1);
    }
  }

  /** An invalid version is reported only when the catalog has one, and it is the first. */
  lemma ChooseVersionInvalid(catalog: seq<Entry>, i: nat)
    requires i < |catalog| && !IsDigits(catalog[i].version)
    requires forall j :: 0 <= j < i ==> IsDigits(catalog[j].version)
    ensures ChooseVersion(catalog) == InvalidVersion(catalog[i].version)
  {
    FirstInvalidIsFirst(catalog, i);
  }

  lemma {:induction false} FirstInvalidIsFirst(catalog: seq<Entry>, i: nat)
    requires i < |catalog| && !IsDigits(catalog[i].version)
    requires forall j :: 0 <= j < i ==> IsDigits(catalog[j].version)
    ensures FirstInvalid(catalog) == Some(catalog[i].version)
  {
    if i > 0 {
      FirstInvalidIsFirst(catalog[1..], i - 1);
    }
  }

  /** `name.lower().replace(" ", "_").replace("-", "_")`. */
  function SafeName(name: string): (r: string)
    ensures |r| == |name|
    ensures forall k :: 0 <= k < |name| ==> r[k] == if name[k] == ' ' || name[k] == '-' then '_' else LowerChar(name[k])
  {
    var lowered := Lower(name);
    var spaced := ReplaceAll(lowered, " ", "_");
    ReplaceAllChar(lowered, ' ', '_');
    ReplaceAllChar(spaced, '-', '_');
    ReplaceAll(spaced, "-", "_")
  }

  /** A safe name has no space, no hyphen and no upper-case ASCII letter. */
  lemma SafeNameClean(name: string)
    ensures ' ' !in SafeName(name) && '-' !in SafeName(name)
    ensures forall c <- SafeName(name) :: !('A' <= c <= 'Z')
  {
  }

  /** Sanitising a safe name changes nothing. */
  lemma SafeNameIdempotent(name: string)
    ensures SafeName(SafeName(name)) == SafeName(name)
  {
  }

  /**
   A written migration file: it opens with its header, and the script the author gave follows a
   blank line and ends the file with a newline; nothing else is in the file.
   */
  predicate FileLayout(text: string, header: string, sql: string)
  {
    && StartsWithText(text, header)
    && EndsWithText(text, "\n\n" + sql + "\n")
    && |text| == |header| + |sql| + 3
  }

  /** A header and a script lay out exactly one file text. */
  lemma FileLayoutUnique(text: string, other: string, header: string, sql: string)
    requires FileLayout(text, header, sql) && FileLayout(other, header, sql)
    ensures text == other
  {
  }

  /** The up-file header: the migration's full name, when it was created, and its description. */
  function UpHeader(version: string, safeName: string, name: string, createdAt: string): string
  {
    "-- Migration: " + version + "_" + safeName + "\n" + "-- Created: " + createdAt + "\n" + "-- Description: " + name
  }

  /** The down-file header: the migration's full name and when it was created. */
  function DownHeader(version: string, safeName: string, createdAt: string): string
  {
    "-- Rollback: " + version + "_" + safeName + "\n" + "-- Created: " + createdAt
  }

  /** The new up-file: a three-line header, a blank line, the script and a final newline. */
  function UpFileText(version: string, safeName: string, name: string, createdAt: string, upSql: string): (r: string)
    ensures FileLayout(r, UpHeader(version, safeName, name, createdAt), upSql)
  {
    var header := UpHeader(version, safeName, name, createdAt);
    var body := "\n\n" + upSql + "\n";
    assert (header + body)[..|header|] == header;
    assert (header + body)[|header + body| - |body|..] == body;
    header + body
  }

  /** The new down-file: a two-line header, a blank line, the script and a final newline. */
  function DownFileText(version: string, safeName: string, createdAt: string, downSql: string): (r: string)
    ensures FileLayout(r, DownHeader(version, safeName, createdAt), downSql)
  {
    var header := DownHeader(version, safeName, createdAt);
    var body := "\n\n" + downSql + "\n";
    assert (header + body)[..|header|] == header;
    assert (header + body)[|header + body| - |body|..] == body;
    header + body
  }

  /** The name of the new up-file. */
  function UpFilename(version: string, safeName: string): string
  {
    version + "_" + safeName + UpSuffix
  }

  /** The name of the new down-file. */
  function DownFilenameOf(version: string, safeName: string): string
  {
    version + "_" + safeName + DownSuffix
  }

  /** The new up-file is one the scan picks up, and it is read back under the chosen version. */
  lemma CreatedFileScanned(version: string, safeName: string)
    requires IsDigits(version)
    ensures IsUpFile(UpFilename(version, safeName))
    ensures ParseFilename(UpFilename(version, safeName)).version == version
  {
    var f := UpFilename(version, safeName);
    assert f == version + "_" + safeName + UpSuffix;
    assert f[|f| - |UpSuffix|..] == UpSuffix;
    assert f[0] == version[0];
    CreatedVersion(version, safeName);
  }

  /**
   Rollback looks for the down-script exactly where the authoring step writes it, provided the
   name holds no `.up.sql` of its own.
   */
  lemma CreatedDownBeside(version: string, safeName: string)
    requires !Contains(version + "_" + safeName, UpSuffix)
    ensures DownFilename(UpFilename(version, safeName)) == DownFilenameOf(version, safeName)
  {
    UpSuffixBorderFree();
    ReplaceAllSuffix(version + "_" + safeName, UpSuffix, DownSuffix);
  }

  /** The chosen version is the version the scan reads back from the new file's name. */
  lemma CreatedVersion(version: string, safeName: string)
    requires IsDigits(version)
    ensures ParseFilename(UpFilename(version, safeName)).version == version
  {
    assert '_' !in version && '.' !in version by {
      forall k | 0 <= k < |version| ensures version[k] != '_' && version[k] != '.' {
        assert '0' <= version[k] <= '9';
      }
    }
    VersionOfName(version, safeName + UpSuffix);
    assert UpFilename(version, safeName) == version + "_" + (safeName + UpSuffix);
  }
}
