/**
 Migration discovery (`get_available_migrations` and `_calculate_checksum` of src/engine.py):
 the `*.up.sql` files of the migrations directory, in filename order, each parsed into version,
 name and full version and identified by a checksum of its up-script content.
 */
module Catalog {
  import opened Wrappers
  import opened Text

  const UpSuffix: string := ".up.sql"
  const DownSuffix: string := ".down.sql"

  /**
   A migration as stored: the name and content of its `.up.sql` file, and the content of the
   `.down.sql` file beside it, when that file exists.
   */
  datatype MigrationFile = MigrationFile(filename: string, up: string, down: Option<string>)

  /** The migrations directory: missing, or holding these migration files. */
  datatype Directory = Missing | Present(files: seq<MigrationFile>)

  /** A name the glob `*.up.sql` matches: it ends in `.up.sql` and does not start with a dot. */
  predicate IsUpFile(filename: string)
  {
    |filename| > |UpSuffix| && filename[|filename| - |UpSuffix|..] == UpSuffix && filename[0] != '.'
  }

  /** The files as the scan sees them: up-file names only, strictly ascending (`sorted(glob(...))`). */
  predicate Sorted(files: seq<MigrationFile>)
  {
    && (forall f <- files :: IsUpFile(f.filename))
    && (forall i, j :: 0 <= i < j < |files| ==> Less(files[i].filename, files[j].filename))
  }

  /** The three parts read from a filename. */
  datatype ParsedName = ParsedName(version: string, name: string, fullVersion: string)

  /**
   The filename with every `.up.sql` removed gives the full version; the version is the text
   before its first `_` and the name the text after it, or "" when it has no `_`.
   */
  function ParseFilename(filename: string): (p: ParsedName)
    ensures p.fullVersion == ReplaceAll(filename, UpSuffix, "")
    ensures '_' !in p.version
    ensures '_' in p.fullVersion ==> p.fullVersion == p.version + "_" + p.name
    ensures '_' !in p.fullVersion ==> p.version == p.fullVersion && p.name == ""
  {
    var full := ReplaceAll(filename, UpSuffix, "");
    var (version, rest) := SplitOnce(full, '_');
    ParsedName(version, if rest.Some? then rest.value else "", full)
  }

  lemma UpSuffixBorderFree()
    ensures BorderFree(UpSuffix)
  {
    forall k | 0 < k < |UpSuffix| ensures UpSuffix[..k] != UpSuffix[|UpSuffix| - k..] {
      assert UpSuffix[..k][0] == '.';
      if k < 4 {
        assert UpSuffix[|UpSuffix| - k..][0] != '.';
      } else {
        assert UpSuffix[..k][1] == 'u';
        assert UpSuffix[|UpSuffix| - k..][1] != 'u';
      }
    }
  }

  /**
   A filename made of a stem and `.up.sql`, where the stem holds no `.up.sql` of its own, has
   the stem as its full version.
   */
  lemma {:induction false} FullVersionOfStem(stem: string)
    requires !Contains(stem, UpSuffix)
    ensures ParseFilename(stem + UpSuffix).fullVersion == stem
  {
    UpSuffixBorderFree();
    ReplaceAllSuffix(stem, UpSuffix, "");
    assert stem + "" == stem;
  }

  /**
   The file the authoring operation writes, `{version}_{name}.up.sql`, is read back as that
   version and name whenever the version holds no `_` and the stem no `.up.sql`.
   */
  lemma {:induction false} ParseFilenameRoundTrip(version: string, name: string)
    requires '_' !in version
    requires !Contains(version + "_" + name, UpSuffix)
    ensures ParseFilename(version + "_" + name + UpSuffix) == ParsedName(version, name, version + "_" + name)
  {
    var stem := version + "_" + name;
    FullVersionOfStem(stem);
    var p := ParseFilename(stem + UpSuffix);
    assert stem[|version|] == '_';
    assert '_' in p.fullVersion;
    SplitOnceUnique(version, name, p.version, p.name);
  }

  /** Splitting at the first `_` has only one answer. */
  lemma SplitOnceUnique(v1: string, n1: string, v2: string, n2: string)
    requires '_' !in v1 && '_' !in v2
    requires v1 + "_" + n1 == v2 + "_" + n2
    ensures v1 == v2 && n1 == n2
  {
    SplitAtFirst(v1, n1);
    SplitAtFirst(v2, n2);
  }

  /** A text with no `_` followed by `_` and a rest splits into exactly those two parts. */
  lemma {:induction false} SplitAtFirst(v: string, n: string)
    requires '_' !in v
    ensures SplitOnce(v + "_" + n, '_') == (v, Some(n))
  {
    var s := v + "_" + n;
    if v == [] {
      assert s[0] == '_' && s[1..] == n;
    } else {
      assert s[0] == v[0] && s[0] != '_';
      assert s[1..] == v[1..] + "_" + n;
      SplitAtFirst(v[1..], n);
      assert [v[0]] + v[1..] == v;
    }
  }

  /**
   A name `{version}_{rest}` whose version holds neither `_` nor `.` is read back with that
   version, whatever `rest` holds.
   */
  lemma VersionOfName(version: string, rest: string)
    requires '_' !in version && '.' !in version
    ensures ParseFilename(version + "_" + rest).version == version
  {
    ReplaceAllPrefix(version + "_", rest, UpSuffix, "");
    assert version + "_" + rest == (version + "_") + rest;
    SplitAtFirst(version, ReplaceAll(rest, UpSuffix, ""));
  }

  /** `_calculate_checksum`: the first 16 characters of the hex SHA-256 digest, here `digest`. */
  function Checksum(digest: string -> string, content: string): (c: string)
    ensures |c| <= 16
    ensures |digest(content)| >= 16 ==> |c| == 16
    ensures |c| <= |digest(content)| && c == digest(content)[..|c|]
  {
    Take(digest(content), 16)
  }

  /** A catalog entry: what the scan reports about one up-file. */
  datatype Entry = Entry(version: string, name: string, fullVersion: string, filename: string, checksum: string)

  /** The entry of one file: its parsed name and the checksum of its up-script. */
  function ScanFile(digest: string -> string, f: MigrationFile): (e: Entry)
    ensures e.filename == f.filename && e.checksum == Checksum(digest, f.up)
    ensures ParsedName(e.version, e.name, e.fullVersion) == ParseFilename(f.filename)
  {
    var p := ParseFilename(f.filename);
    Entry(p.version, p.name, p.fullVersion, f.filename, Checksum(digest, f.up))
  }

  /** The entries of the files, in the same order. */
  function Entries(digest: string -> string, files: seq<MigrationFile>): (r: seq<Entry>)
    ensures |r| == |files|
    ensures forall k :: 0 <= k < |r| ==> r[k] == ScanFile(digest, files[k])
  {
    if files == [] then []
    else Entries(digest, files[..|files| - 1]) + [ScanFile(digest, files[|files| - 1])]
  }

  /** The catalog of a directory: nothing when it is missing, one entry per up-file otherwise. */
  function Scan(digest: string -> string, dir: Directory): (r: seq<Entry>)
    ensures dir.Missing? ==> r == []
    ensures dir.Present? ==> |r| == |dir.files|
    ensures dir.Present? ==> forall k :: 0 <= k < |r| ==> r[k] == ScanFile(digest, dir.files[k])
  {
    match dir
    case Missing => []
    case Present(files) => Entries(digest, files)
  }

  /**
   The checksum is content-addressed: two files with the same up-script have the same
   checksum whatever their names or down-scripts.
   */
  lemma ChecksumContentAddressed(digest: string -> string, f: MigrationFile, g: MigrationFile)
    requires f.up == g.up
    ensures ScanFile(digest, f).checksum == ScanFile(digest, g).checksum
  {
  }

  /** The file the dict `{m["version"]: m for m in ...}` keeps for a version: the last one with it. */
  function Lookup(files: seq<MigrationFile>, version: string): (r: Option<MigrationFile>)
    ensures r.Some? ==> r.value in files && ParseFilename(r.value.filename).version == version
    ensures r.None? <==> forall f <- files :: ParseFilename(f.filename).version != version
  {
    if files == [] then None
    else
      var last := files[|files| - 1];
      if ParseFilename(last.filename).version == version then Some(last)
      else
        var r := Lookup(files[..|files| - 1], version);
        assert forall f <- files :: f in files[..|files| - 1] || f == last;
        r
  }

  /**
   The dict keeps the last file with a version: whatever comes before position `i`, and
   whatever comes after it with other versions, Lookup finds the file at `i`.
   */
  lemma {:induction false} LookupLastWins(files: seq<MigrationFile>, i: nat, version: string)
    requires i < |files| && ParseFilename(files[i].filename).version == version
    requires forall j :: i < j < |files| ==> ParseFilename(files[j].filename).version != version
    ensures Lookup(files, version) == Some(files[i])
    decreases |files|
  {
    if i < |files| - 1 {
      var shorter := files[..|files| - 1];
      assert shorter[i] == files[i];
      assert forall j :: i < j < |shorter| ==> shorter[j] == files[j];
      LookupLastWins(shorter, i, version);
    }
  }

  /** The directory after writing a file whose name is not there yet, in name order. */
  function InsertFile(files: seq<MigrationFile>, f: MigrationFile): (r: seq<MigrationFile>)
    ensures |r| == |files| + 1
    ensures forall g :: g in r <==> g in files || g == f
  {
    if files == [] then [f]
    else if Less(f.filename, files[0].filename) then [f] + files
    else
      var rest := InsertFile(files[1..], f);
      assert files == [files[0]] + files[1..];
      [files[0]] + rest
  }

  /** Writing a new up-file keeps the directory sorted. */
  lemma {:induction false} InsertFileSorted(files: seq<MigrationFile>, f: MigrationFile)
    requires Sorted(files) && IsUpFile(f.filename)
    requires forall g <- files :: g.filename != f.filename
    ensures Sorted(InsertFile(files, f))
  {
    if files != [] && !Less(f.filename, files[0].filename) {
      LessTotal(f.filename, files[0].filename);
      InsertFileSorted(files[1..], f);
      var r := InsertFile(files, f);
      forall j | 0 < j < |r| ensures Less(r[0].filename, r[j].filename) {
        assert r[j] in InsertFile(files[1..], f);
        if r[j] != f {
          var k :| 0 <= k < |files[1..]| && files[1..][k] == r[j];
          assert files[k + 1] == r[j];
        }
      }
    } else if files != [] {
      var r := InsertFile(files, f);
      forall i, j | 0 <= i < j < |r| ensures Less(r[i].filename, r[j].filename) {
        if i == 0 {
          assert r[j] == files[j - 1];
          if j > 1 { LessTransitive(f.filename, files[0].filename, files[j - 1].filename); }
        } else {
          assert r[i] == files[i - 1] && r[j] == files[j - 1];
        }
      }
    }
  }

  /**
   The down-script path rollback checks: the up path with `.up.sql` replaced by `.down.sql`. It
   is never shorter than the up path, and for an up-file whose stem holds no `.up.sql` it is the
   stem followed by `.down.sql`, so it lies beside the up-file.
   */
  function DownFilename(filename: string): (r: string)
    ensures |r| >= |filename|
    ensures IsUpFile(filename) && !Contains(filename[..|filename| - |UpSuffix|], UpSuffix) ==>
      r == filename[..|filename| - |UpSuffix|] + DownSuffix
  {
    ReplaceAllLonger(filename, UpSuffix, DownSuffix);
    DownBesideStem(filename);
    ReplaceAll(filename, UpSuffix, DownSuffix)
  }

  lemma DownBesideStem(filename: string)
    ensures IsUpFile(filename) && !Contains(filename[..|filename| - |UpSuffix|], UpSuffix) ==>
      ReplaceAll(filename, UpSuffix, DownSuffix) == filename[..|filename| - |UpSuffix|] + DownSuffix
  {
    if IsUpFile(filename) && !Contains(filename[..|filename| - |UpSuffix|], UpSuffix) {
      var stem := filename[..|filename| - |UpSuffix|];
      assert filename == stem + UpSuffix;
      UpSuffixBorderFree();
      ReplaceAllSuffix(stem, UpSuffix, DownSuffix);
    }
  }

  /**
   The glob `*.up.sql` matches `stem + ".up.sql"` exactly when the stem is not empty and does
   not start with a dot (the glob skips hidden files).
   */
  lemma UpFileGlob(stem: string)
    ensures IsUpFile(stem + UpSuffix) <==> stem != [] && stem[0] != '.'
  {
    var f := stem + UpSuffix;
    assert f[|f| - |UpSuffix|..] == UpSuffix;
    if stem != [] {
      assert f[0] == stem[0];
    }
  }
}
