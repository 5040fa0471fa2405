/** verification.py: reading the checksum file of the archive server, and listing the
    downloaded archives with a checksum verdict each, deleting mismatched, empty or
    undersized ones on request. Digests, sizes and the server's size answers are
    parameters: the model sees file contents, not bytes. */
module Verification {
  import opened Wrappers
  import opened Text
  import opened Environment
  import opened Seqs

  // ------------------------------------------------------------ the checksum file

  /** A line `_parse_checksum_file` keeps: one that does not strip to nothing. */
  predicate NonBlank(ln: string) {
    |Strip(ln)| > 0
  }

  function NonBlankFilter(): string -> bool {
    ln => NonBlank(ln)
  }

  /** How a line is cut into fields. */
  type Splitter = string -> seq<string>

  /** The source's cut: `ln.strip().split()`, each field `.strip()`ped again when the
      dictionary is built. `split()` already drops surrounding whitespace, so the first
      `strip()` is left out (`TokensOfStrip`). */
  function ChecksumFields(): Splitter {
    ln => StripEach(Tokens(ln))
  }

  function StripEach(fields: seq<string>): (r: seq<string>)
    ensures |r| == |fields|
    decreases |fields|
  {
    if |fields| == 0 then [] else [Strip(fields[0])] + StripEach(fields[1..])
  }

  /** The dictionary comprehension over the rows: each row must unpack into exactly two
      fields `k, v` (else `ValueError`) and maps `v` to `k`, later rows overriding earlier
      ones. */
  function ParseRows(fields: Splitter, lines: seq<string>): Result<map<string, string>, Error>
    decreases |lines|
  {
    if |lines| == 0 then Success(map[])
    else
      match ParseRows(fields, lines[..|lines| - 1])
      case Failure(e) => Failure(e)
      case Success(m) =>
        var ln := lines[|lines| - 1];
        var row := fields(ln);
        if |row| != 2 then Failure(BadChecksumLine(ln))
        else Success(m[row[1] := row[0]])
  }

  /** The rows of a checksum file: its text split on newlines, blank lines dropped. */
  function ChecksumLines(text: string): seq<string> {
    Filter(Split(text, '\n'), NonBlankFilter())
  }

  /** `_parse_checksum_file`: succeeds exactly when every non-blank line is two
      whitespace-separated fields, reports the first line that is not, and otherwise maps
      each file name to the hash on the last row naming it. */
  function ParseChecksumText(text: string): (r: Result<map<string, string>, Error>)
    ensures r.Success? <==> WellFormedRows(ChecksumFields(), ChecksumLines(text))
    ensures r.Failure? ==> exists i :: (
      && 0 <= i < |ChecksumLines(text)|
      && r.error == BadChecksumLine(ChecksumLines(text)[i])
      && !WellFormedRow(ChecksumFields(), ChecksumLines(text)[i])
      && WellFormedRows(ChecksumFields(), ChecksumLines(text)[..i]))
    ensures r.Success? ==> forall name ::
      && (name in r.value <==> LastHashFor(ChecksumFields(), ChecksumLines(text), name).Some?)
      && (name in r.value ==> r.value[name] == LastHashFor(ChecksumFields(), ChecksumLines(text), name).value)
  {
    var rows := ChecksumLines(text);
    ParseRowsSucceeds(ChecksumFields(), rows);
    ParseRowsFailure(ChecksumFields(), rows);
    ParseRowsLookupAll(ChecksumFields(), rows);
    ParseRows(ChecksumFields(), rows)
  }

  /** A row of exactly two fields. */
  predicate WellFormedRow(fields: Splitter, ln: string) {
    |fields(ln)| == 2
  }

  /** The hash the last two-field row naming `name` gives it, if any. */
  function LastHashFor(fields: Splitter, lines: seq<string>, name: string): Option<string>
    decreases |lines|
  {
    if |lines| == 0 then None
    else
      var row := fields(lines[|lines| - 1]);
      if |row| == 2 && row[1] == name then Some(row[0])
      else LastHashFor(fields, lines[..|lines| - 1], name)
  }

  /** Parsing succeeds exactly when every row is two fields. */
  lemma {:induction false} ParseRowsSucceeds(fields: Splitter, lines: seq<string>)
    ensures ParseRows(fields, lines).Success? <==> WellFormedRows(fields, lines)
    decreases |lines|
  {
    if |lines| > 0 {
      var init := lines[..|lines| - 1];
      ParseRowsSucceeds(fields, init);
      assert forall i :: 0 <= i < |init| ==> init[i] == lines[i];
    }
  }

  /** A failed parse reports the first row that is not two fields. */
  lemma {:induction false} ParseRowsFirstError(fields: Splitter, lines: seq<string>) returns (i: nat)
    requires ParseRows(fields, lines).Failure?
    ensures i < |lines| && !WellFormedRow(fields, lines[i]) && ParseRows(fields, lines).error == BadChecksumLine(lines[i])
    ensures forall j :: 0 <= j < i ==> WellFormedRow(fields, lines[j])
    decreases |lines|
  {
    var init := lines[..|lines| - 1];
    if ParseRows(fields, init).Failure? {
      i := ParseRowsFirstError(fields, init);
      assert lines[i] == init[i];
      assert forall j :: 0 <= j < i ==> init[j] == lines[j];
    } else {
      ParseRowsSucceeds(fields, init);
      i := |lines| - 1;
      assert forall j :: 0 <= j < i ==> init[j] == lines[j];
    }
  }

  /** After a successful parse each name maps to the hash of the last row naming it. */
  lemma {:induction false} ParseRowsLookup(fields: Splitter, lines: seq<string>, name: string)
    requires ParseRows(fields, lines).Success?
    ensures name in ParseRows(fields, lines).value <==> LastHashFor(fields, lines, name).Some?
    ensures name in ParseRows(fields, lines).value ==> ParseRows(fields, lines).value[name] == LastHashFor(fields, lines, name).value
    decreases |lines|
  {
    if |lines| > 0 {
      ParseRowsLookup(fields, lines[..|lines| - 1], name);
    }
  }

  /** The rows of a checksum file are its non-blank lines. */
  lemma ChecksumLinesSpec(text: string)
    ensures forall r :: r in ChecksumLines(text) <==> r in Split(text, '\n') && NonBlank(r)
  {
    FilterMembers(Split(text, '\n'), NonBlankFilter());
  }

  predicate WellFormedRows(fields: Splitter, rows: seq<string>) {
    forall i :: 0 <= i < |rows| ==> WellFormedRow(fields, rows[i])
  }

  lemma ParseRowsFailure(fields: Splitter, lines: seq<string>)
    ensures ParseRows(fields, lines).Failure? ==> exists i :: (
      && 0 <= i < |lines|
      && ParseRows(fields, lines).error == BadChecksumLine(lines[i])
      && !WellFormedRow(fields, lines[i])
      && WellFormedRows(fields, lines[..i]))
  {
    if ParseRows(fields, lines).Failure? {
      var i := ParseRowsFirstError(fields, lines);
      assert WellFormedRows(fields, lines[..i]);
    }
  }

  lemma ParseRowsLookupAll(fields: Splitter, lines: seq<string>)
    ensures ParseRows(fields, lines).Success? ==> forall name ::
      && (name in ParseRows(fields, lines).value <==> LastHashFor(fields, lines, name).Some?)
      && (name in ParseRows(fields, lines).value ==> ParseRows(fields, lines).value[name] == LastHashFor(fields, lines, name).value)
  {
    if ParseRows(fields, lines).Success? {
      forall name
        ensures name in ParseRows(fields, lines).value <==> LastHashFor(fields, lines, name).Some?
        ensures name in ParseRows(fields, lines).value ==> ParseRows(fields, lines).value[name] == LastHashFor(fields, lines, name).value
      {
        ParseRowsLookup(fields, lines, name);
      }
    }
  }

  /** Stripping a field changes nothing: fields carry no whitespace. */
  lemma StripField(w: string)
    requires 0 < |w| && NoSpace(w)
    ensures Strip(w) == w
  {
    StripTrimmed(w);
  }

  // ------------------------------------------------------------ round trip

  /** A checksum entry: a hash and a file name, both single words. */
  datatype Entry = Entry(hash: string, name: string)

  predicate ValidEntry(e: Entry) {
    0 < |e.hash| && NoSpace(e.hash) && 0 < |e.name| && NoSpace(e.name)
  }

  /** One line of a checksum file as `sha256sum` writes it: hash, two spaces, name. */
  function Row(e: Entry): string {
    e.hash + "  " + e.name
  }

  /** A checksum file: every row followed by a newline. */
  function FormatChecksums(entries: seq<Entry>): string
    decreases |entries|
  {
    if |entries| == 0 then "" else Row(entries[0]) + "\n" + FormatChecksums(entries[1..])
  }

  function Rows(entries: seq<Entry>): seq<string> {
    seq(|entries|, i requires 0 <= i < |entries| => Row(entries[i]))
  }

  /** The map the entries describe, a later entry for a name overriding an earlier one. */
  function ChecksumMap(entries: seq<Entry>): map<string, string>
    decreases |entries|
  {
    if |entries| == 0 then map[]
    else ChecksumMap(entries[..|entries| - 1])[entries[|entries| - 1].name := entries[|entries| - 1].hash]
  }

  lemma {:induction false} SplitFormat(entries: seq<Entry>)
    requires forall i :: 0 <= i < |entries| ==> ValidEntry(entries[i])
    ensures Split(FormatChecksums(entries), '\n') == Rows(entries) + [""]
    decreases |entries|
  {
    if |entries| > 0 {
      var e := entries[0];
      SplitFormat(entries[1..]);
      RowHasNoNewline(e);
      SplitAppendSep(Row(e), FormatChecksums(entries[1..]), '\n');
      SplitWithoutSep(Row(e), '\n');
      assert Row(e) + "\n" + FormatChecksums(entries[1..]) == Row(e) + ['\n'] + FormatChecksums(entries[1..]);
      RowsCons(entries);
    }
  }

  lemma RowHasNoNewline(e: Entry)
    requires ValidEntry(e)
    ensures '\n' !in Row(e)
  {
    assert IsSpace('\n');
    forall k | 0 <= k < |Row(e)|
      ensures Row(e)[k] != '\n'
    {
      if k < |e.hash| {
        assert Row(e)[k] == e.hash[k];
      } else if k >= |e.hash| + 2 {
        assert Row(e)[k] == e.name[k - |e.hash| - 2];
      }
    }
  }

  lemma RowsCons(entries: seq<Entry>)
    requires |entries| > 0
    ensures Rows(entries) == [Row(entries[0])] + Rows(entries[1..])
  {
  }

  lemma RowTokens(e: Entry)
    requires ValidEntry(e)
    ensures NonBlank(Row(e))
    ensures Tokens(Row(e)) == [e.hash, e.name]
  {
    var r := Row(e);
    assert r[0] == e.hash[0];
    assert r[|r| - 1] == e.name[|e.name| - 1];
    StripTrimmed(r);
    assert r == e.hash + "  " + e.name;
    assert AllSpace("  ");
    TokensAcrossSpace(e.hash, "  ", e.name);
    TokensOfWord(e.hash);
    TokensOfWord(e.name);
  }

  lemma {:induction false} StripWords(fields: seq<string>)
    requires forall i :: 0 <= i < |fields| ==> Strip(fields[i]) == fields[i]
    ensures StripEach(fields) == fields
    decreases |fields|
  {
    if |fields| > 0 {
      StripWords(fields[1..]);
      assert fields == [fields[0]] + fields[1..];
    }
  }

  /** A row as `sha256sum` writes it is kept and cuts back into its hash and name. */
  lemma RowFields(e: Entry)
    requires ValidEntry(e)
    ensures NonBlank(Row(e))
    ensures ChecksumFields()(Row(e)) == [e.hash, e.name]
  {
    RowTokens(e);
    StripPair(e.hash, e.name);
    FieldsOfTokens(Row(e), [e.hash, e.name]);
  }

  lemma StripPair(a: string, b: string)
    requires 0 < |a| && NoSpace(a) && 0 < |b| && NoSpace(b)
    ensures StripEach([a, b]) == [a, b]
  {
    StripField(a);
    StripField(b);
    StripWords([a, b]);
  }

  lemma FieldsOfTokens(ln: string, fields: seq<string>)
    requires Tokens(ln) == fields && StripEach(fields) == fields
    ensures ChecksumFields()(ln) == fields
  {
  }

  lemma {:induction false} ParseRowsOfEntries(fields: Splitter, entries: seq<Entry>)
    requires forall i :: 0 <= i < |entries| ==> fields(Row(entries[i])) == [entries[i].hash, entries[i].name]
    ensures ParseRows(fields, Rows(entries)) == Success(ChecksumMap(entries))
    decreases |entries|
  {
    if |entries| > 0 {
      var init := entries[..|entries| - 1];
      ParseRowsOfEntries(fields, init);
      assert Rows(entries)[..|entries| - 1] == Rows(init);
    }
  }

  /** The rows of a formatted checksum file are the entries' rows. */
  lemma FormatLines(entries: seq<Entry>)
    requires forall i :: 0 <= i < |entries| ==> ValidEntry(entries[i])
    ensures ChecksumLines(FormatChecksums(entries)) == Rows(entries)
  {
    SplitFormat(entries);
    var rows := Rows(entries);
    RowsNonBlank(entries);
    FilterAll(rows, NonBlankFilter());
    FilterConcat(rows, [""], NonBlankFilter());
    BlankLineDropped();
  }

  lemma RowsNonBlank(entries: seq<Entry>)
    requires forall i :: 0 <= i < |entries| ==> ValidEntry(entries[i])
    ensures forall i :: 0 <= i < |Rows(entries)| ==> NonBlankFilter()(Rows(entries)[i])
  {
    forall i | 0 <= i < |entries|
      ensures NonBlankFilter()(Rows(entries)[i])
    {
      RowTokens(entries[i]);
    }
  }

  lemma BlankLineDropped()
    ensures Filter([""], NonBlankFilter()) == []
  {
    assert Strip("") == "";
  }

  /** Reading back a checksum file gives the map its entries describe. */
  lemma ChecksumRoundTrip(entries: seq<Entry>)
    requires forall i :: 0 <= i < |entries| ==> ValidEntry(entries[i])
    ensures ParseChecksumText(FormatChecksums(entries)) == Success(ChecksumMap(entries))
  {
    FormatLines(entries);
    forall i | 0 <= i < |entries|
      ensures ChecksumFields()(Row(entries[i])) == [entries[i].hash, entries[i].name]
    {
      RowFields(entries[i]);
    }
    ParseRowsOfEntries(ChecksumFields(), entries);
  }

  /** The map has one key per entry name, and with distinct names entry `i`'s hash is
      found under entry `i`'s name. */
  lemma {:induction false} ChecksumMapSpec(entries: seq<Entry>)
    ensures forall name :: name in ChecksumMap(entries) <==> exists i :: 0 <= i < |entries| && entries[i].name == name
    ensures (forall i, j :: 0 <= i < j < |entries| ==> entries[i].name != entries[j].name) ==>
      forall i :: 0 <= i < |entries| ==> ChecksumMap(entries)[entries[i].name] == entries[i].hash
    decreases |entries|
  {
    if |entries| > 0 {
      var init := entries[..|entries| - 1];
      ChecksumMapSpec(init);
      assert forall i :: 0 <= i < |init| ==> init[i] == entries[i];
    }
  }

  // ------------------------------------------------------------ listing

  /** The message a listed archive gets: not checked, no checksum known, checksum
      verified, or checksum mismatch with the expected and the found digest. */
  datatype Verdict = Unchecked | NoChecksum | Verified | Mismatch(expected: string, found: string)

  /** The flags of `list_files` the downloaded-archive loop reads. */
  datatype Options = Options(verify: bool, deleteMismatched: bool, deleteEmpty: bool, deleteUndersized: bool)

  /** What the loop asks of the outside world: the SHA-256 digest and the size of a
      file's contents, the size the server announces for a name (`None` where the lookup
      raises the `TypeError` the source catches), and whether a size counts as
      undersized against the announced one under `size_ratio`. */
  datatype Probe = Probe(digest: seq<Line> -> string, size: seq<Line> -> nat,
                         remoteSize: string -> Option<nat>, undersized: (nat, nat) -> bool)

  /** The verdict for one archive (lines 41-53): the digest is read from the file only
      when a checksum is known, and reading a missing file raises. */
  function Check(fs: FileSystem, fp: Path, name: string, checks: Option<map<string, string>>, probe: Probe): Result<Verdict, Error>
  {
    if checks.None? then Success(Unchecked)
    else if name !in checks.value then Success(NoChecksum)
    else if fp !in fs then Failure(FileMissing(fp))
    else
      var found := probe.digest(fs[fp]);
      if checks.value[name] == found then Success(Verified) else Success(Mismatch(checks.value[name], found))
  }

  /** What one archive's turn of the loop leaves: the files and the verdict. */
  datatype Turn = Turn(fs: FileSystem, verdict: Verdict)

  /** The size checks of lines 63-90 for a file that still exists. */
  function SizeChecks(fs: FileSystem, fp: Path, name: string, opts: Options, probe: Probe): FileSystem
    requires fp in fs
  {
    if opts.deleteEmpty && probe.size(fs[fp]) == 0 then fs - {fp}
    else if opts.deleteUndersized then
      match probe.remoteSize(name)
      case None => fs
      case Some(expected) => if probe.undersized(probe.size(fs[fp]), expected) then fs - {fp} else fs
    else fs
  }

  /** One turn of the loop as the source has it: after a mismatched archive is deleted
      (line 60), the size checks still `stat` it (line 63, or line 77), which raises. */
  function ListEntryAsWritten(fs: FileSystem, dataDir: Path, name: string, opts: Options,
                              checks: Option<map<string, string>>, probe: Probe): Result<Turn, Error>
  {
    var fp := Join(dataDir, name);
    match Check(fs, fp, name, checks, probe)
    case Failure(e) => Failure(e)
    case Success(v) =>
      var fs1 := if v.Mismatch? && opts.deleteMismatched then fs - {fp} else fs;
      if fp in fs1 then Success(Turn(SizeChecks(fs1, fp, name, opts, probe), v))
      else if opts.deleteEmpty then Failure(FileMissing(fp))
      else if opts.deleteUndersized && probe.remoteSize(name).Some? then Failure(FileMissing(fp))
      else Success(Turn(fs1, v))
  }

  /** One turn of the loop with the size checks skipped for an archive already deleted. */
  function ListEntry(fs: FileSystem, dataDir: Path, name: string, opts: Options,
                     checks: Option<map<string, string>>, probe: Probe): Result<Turn, Error>
  {
    var fp := Join(dataDir, name);
    match Check(fs, fp, name, checks, probe)
    case Failure(e) => Failure(e)
    case Success(v) =>
      var fs1 := if v.Mismatch? && opts.deleteMismatched then fs - {fp} else fs;
      if fp in fs1 then Success(Turn(SizeChecks(fs1, fp, name, opts, probe), v))
      else Success(Turn(fs1, v))
  }

  /** Whether the turn of an existing archive deletes it: a mismatch with
      `delete_mismatched`; an empty file with `delete_empty`; otherwise an undersized file
      with `delete_undersized`, when the server announces a size. */
  predicate Deletes(fs: FileSystem, fp: Path, name: string, opts: Options, checks: Option<map<string, string>>, probe: Probe)
    requires fp in fs
  {
    var v := Check(fs, fp, name, checks, probe).value;
    || (v.Mismatch? && opts.deleteMismatched)
    || (opts.deleteEmpty && probe.size(fs[fp]) == 0)
    || (!(opts.deleteEmpty && probe.size(fs[fp]) == 0) && opts.deleteUndersized
        && probe.remoteSize(name).Some? && probe.undersized(probe.size(fs[fp]), probe.remoteSize(name).value))
  }

  /** The verdicts mean what they say: no verdict without `verify`, "no checksum" exactly
      for names the checksum file lacks, "verified" exactly when the digest matches. */
  lemma CheckSpec(fs: FileSystem, fp: Path, name: string, checks: Option<map<string, string>>, probe: Probe)
    requires fp in fs
    ensures Check(fs, fp, name, checks, probe).Success?
    ensures Check(fs, fp, name, checks, probe).value == Unchecked <==> checks.None?
    ensures Check(fs, fp, name, checks, probe).value == NoChecksum <==> checks.Some? && name !in checks.value
    ensures Check(fs, fp, name, checks, probe).value == Verified <==>
      checks.Some? && name in checks.value && checks.value[name] == probe.digest(fs[fp])
    ensures Check(fs, fp, name, checks, probe).value.Mismatch? ==>
      checks.Some? && name in checks.value && checks.value[name] != probe.digest(fs[fp])
      && Check(fs, fp, name, checks, probe).value == Mismatch(checks.value[name], probe.digest(fs[fp]))
  {
  }

  /** A turn on an existing archive never fails; it reports the archive's verdict, deletes
      the archive exactly when `Deletes` says so, and touches no other file. */
  lemma ListEntrySpec(fs: FileSystem, dataDir: Path, name: string, opts: Options,
                      checks: Option<map<string, string>>, probe: Probe)
    requires Join(dataDir, name) in fs
    ensures var fp := Join(dataDir, name);
      var t := ListEntry(fs, dataDir, name, opts, checks, probe);
      && t.Success?
      && t.value.verdict == Check(fs, fp, name, checks, probe).value
      && (fp in t.value.fs <==> !Deletes(fs, fp, name, opts, checks, probe))
      && (fp in t.value.fs ==> t.value.fs[fp] == fs[fp])
      && (forall p :: p != fp ==> (p in t.value.fs <==> p in fs) && (p in fs ==> t.value.fs[p] == fs[p]))
  {
  }

  /** The source's turn fails on an archive whose checksum mismatches when both
      `delete_mismatched` and `delete_empty` are set: the archive is deleted and then
      `stat`ed. */
  lemma AsWrittenFailsOnDeletedMismatch(fs: FileSystem, dataDir: Path, name: string, opts: Options,
                                        checks: map<string, string>, probe: Probe)
    requires Join(dataDir, name) in fs
    requires name in checks && checks[name] != probe.digest(fs[Join(dataDir, name)])
    requires opts.verify && opts.deleteMismatched && opts.deleteEmpty
    ensures ListEntryAsWritten(fs, dataDir, name, opts, Some(checks), probe) == Failure(FileMissing(Join(dataDir, name)))
    ensures ListEntry(fs, dataDir, name, opts, Some(checks), probe).Success?
  {
  }

  /** Wherever the source's turn completes, the corrected one does the same; they differ
      only in the failing case. */
  lemma ListEntryAgrees(fs: FileSystem, dataDir: Path, name: string, opts: Options,
                        checks: Option<map<string, string>>, probe: Probe)
    ensures ListEntryAsWritten(fs, dataDir, name, opts, checks, probe).Success? ==>
      ListEntryAsWritten(fs, dataDir, name, opts, checks, probe) == ListEntry(fs, dataDir, name, opts, checks, probe)
    ensures ListEntryAsWritten(fs, dataDir, name, opts, checks, probe) != ListEntry(fs, dataDir, name, opts, checks, probe) ==>
      var fp := Join(dataDir, name);
      fp in fs ==>
        && opts.deleteMismatched && Check(fs, fp, name, checks, probe).value.Mismatch?
        && (opts.deleteEmpty || (opts.deleteUndersized && probe.remoteSize(name).Some?))
  {
  }

  // ------------------------------------------------------------ the listing loop

  /** What the listing leaves: the files, one verdict per archive listed so far, and the
      exception that ended it, if any. */
  datatype Listing = Listing(fs: FileSystem, report: seq<(string, Verdict)>, failure: Option<Error>)

  /** The loop over the sorted archive names, stopping at the first exception. */
  function ListArchives(fs: FileSystem, dataDir: Path, names: seq<string>, opts: Options,
                        checks: Option<map<string, string>>, probe: Probe): Listing
    decreases |names|
  {
    if |names| == 0 then Listing(fs, [], None)
    else
      match ListEntry(fs, dataDir, names[0], opts, checks, probe)
      case Failure(e) => Listing(fs, [], Some(e))
      case Success(t) =>
        var rest := ListArchives(t.fs, dataDir, names[1..], opts, checks, probe);
        Listing(rest.fs, [(names[0], t.verdict)] + rest.report, rest.failure)
  }

  /** `list_files(downloaded, verify, delete_mismatched, delete_empty, delete_undersized)`
      for the downloaded archives: with `verify`, the checksum file is parsed first and a
      malformed one ends the run before anything is listed. `names` are the archive names
      the sorted glob `RC_*-*.*` finds in the data folder. */
  function ListFiles(fs: FileSystem, dataDir: Path, names: seq<string>, downloaded: bool, opts: Options,
                     checksumText: string, probe: Probe): Listing
  {
    var checks := if opts.verify then ParseChecksumText(checksumText) else Success(map[]);
    if checks.Failure? then Listing(fs, [], Some(checks.error))
    else if !downloaded then Listing(fs, [], None)
    else ListArchives(fs, dataDir, names, opts, if opts.verify then Some(checks.value) else None, probe)
  }

  /** The archives a glob finds: existing, distinct, non-empty names in the data folder. */
  predicate Globbed(fs: FileSystem, dataDir: Path, names: seq<string>) {
    && (forall i :: 0 <= i < |names| ==> 0 < |names[i]| && dataDir + [names[i]] in fs)
    && (forall i, j :: 0 <= i < j < |names| ==> names[i] != names[j])
  }

  /** The path of the `i`-th listed archive. */
  function Listed(dataDir: Path, names: seq<string>, i: nat): Path
    requires i < |names|
  {
    dataDir + [names[i]]
  }

  /** The first turn over globbed archives succeeds and leaves the rest globbed. */
  lemma ListEntryKeepsGlob(fs: FileSystem, dataDir: Path, names: seq<string>, opts: Options,
                           checks: Option<map<string, string>>, probe: Probe)
    requires Globbed(fs, dataDir, names) && |names| > 0
    ensures ListEntry(fs, dataDir, names[0], opts, checks, probe).Success?
    ensures Globbed(ListEntry(fs, dataDir, names[0], opts, checks, probe).value.fs, dataDir, names[1..])
  {
    ListEntrySpec(fs, dataDir, names[0], opts, checks, probe);
    var t := ListEntry(fs, dataDir, names[0], opts, checks, probe).value;
    var rest := names[1..];
    forall i | 0 <= i < |rest|
      ensures 0 < |rest[i]| && dataDir + [rest[i]] in t.fs
    {
      assert rest[i] == names[i + 1];
      assert (dataDir + [rest[i]])[|dataDir|] == rest[i];
    }
  }

  /** Over globbed archives the loop takes its first turn and goes on with the rest. */
  lemma ListArchivesCons(fs: FileSystem, dataDir: Path, names: seq<string>, opts: Options,
                         checks: Option<map<string, string>>, probe: Probe)
    requires Globbed(fs, dataDir, names) && |names| > 0
    ensures ListEntry(fs, dataDir, names[0], opts, checks, probe).Success?
    ensures var t := ListEntry(fs, dataDir, names[0], opts, checks, probe).value;
      && Globbed(t.fs, dataDir, names[1..])
      && var rest := ListArchives(t.fs, dataDir, names[1..], opts, checks, probe);
         ListArchives(fs, dataDir, names, opts, checks, probe)
         == Listing(rest.fs, [(names[0], t.verdict)] + rest.report, rest.failure)
  {
    ListEntryKeepsGlob(fs, dataDir, names, opts, checks, probe);
  }

  /** Over globbed archives the loop never fails and changes only the listed archives. */
  lemma {:induction false} ListArchivesFrame(fs: FileSystem, dataDir: Path, names: seq<string>, opts: Options,
                                             checks: Option<map<string, string>>, probe: Probe)
    requires Globbed(fs, dataDir, names)
    ensures ListArchives(fs, dataDir, names, opts, checks, probe).failure.None?
    ensures |ListArchives(fs, dataDir, names, opts, checks, probe).report| == |names|
    ensures var r := ListArchives(fs, dataDir, names, opts, checks, probe);
      forall p :: (forall i :: 0 <= i < |names| ==> p != Listed(dataDir, names, i)) ==>
        (p in r.fs <==> p in fs) && (p in fs ==> r.fs[p] == fs[p])
    decreases |names|
  {
    if |names| > 0 {
      ListArchivesCons(fs, dataDir, names, opts, checks, probe);
      ListEntrySpec(fs, dataDir, names[0], opts, checks, probe);
      var t := ListEntry(fs, dataDir, names[0], opts, checks, probe).value;
      ListArchivesFrame(t.fs, dataDir, names[1..], opts, checks, probe);
      var r := ListArchives(fs, dataDir, names, opts, checks, probe);
      forall p | forall i :: 0 <= i < |names| ==> p != Listed(dataDir, names, i)
        ensures (p in r.fs <==> p in fs) && (p in fs ==> r.fs[p] == fs[p])
      {
        assert p != Listed(dataDir, names, 0);
        forall i | 0 <= i < |names[1..]|
          ensures p != Listed(dataDir, names[1..], i)
        {
          assert Listed(dataDir, names[1..], i) == Listed(dataDir, names, i + 1);
        }
      }
    }
  }

  /** Distinct globbed names give distinct paths. */
  lemma ListedDistinct(fs: FileSystem, dataDir: Path, names: seq<string>, i: nat, j: nat)
    requires Globbed(fs, dataDir, names) && i < |names| && j < |names| && i != j
    ensures Listed(dataDir, names, i) != Listed(dataDir, names, j)
  {
    assert Listed(dataDir, names, i)[|dataDir|] == names[i];
    assert Listed(dataDir, names, j)[|dataDir|] == names[j];
  }

  /** Archive `i` is reported with the verdict its contents earn. */
  lemma {:induction false} ListArchivesReportAt(fs: FileSystem, dataDir: Path, names: seq<string>, opts: Options,
                                                checks: Option<map<string, string>>, probe: Probe, i: nat)
    requires Globbed(fs, dataDir, names) && i < |names|
    ensures |ListArchives(fs, dataDir, names, opts, checks, probe).report| == |names|
    ensures ListArchives(fs, dataDir, names, opts, checks, probe).report[i]
      == (names[i], Check(fs, Listed(dataDir, names, i), names[i], checks, probe).value)
    decreases i
  {
    ListArchivesCons(fs, dataDir, names, opts, checks, probe);
    ListEntrySpec(fs, dataDir, names[0], opts, checks, probe);
    var t := ListEntry(fs, dataDir, names[0], opts, checks, probe).value;
    if i == 0 {
      ListArchivesFrame(fs, dataDir, names, opts, checks, probe);
    } else {
      ListArchivesReportAt(t.fs, dataDir, names[1..], opts, checks, probe, i - 1);
      ListedDistinct(fs, dataDir, names, 0, i);
      assert Listed(dataDir, names[1..], i - 1) == Listed(dataDir, names, i);
      CheckUnderOtherTurn(fs, t.fs, Listed(dataDir, names, i), names[i], checks, probe);
    }
  }

  /** Archive `i` is deleted exactly when `Deletes` picks it, and otherwise keeps its
      contents. */
  lemma {:induction false} ListArchivesDeletesAt(fs: FileSystem, dataDir: Path, names: seq<string>, opts: Options,
                                                 checks: Option<map<string, string>>, probe: Probe, i: nat)
    requires Globbed(fs, dataDir, names) && i < |names|
    ensures var r := ListArchives(fs, dataDir, names, opts, checks, probe);
      var fp := Listed(dataDir, names, i);
      && (fp in r.fs <==> !Deletes(fs, fp, names[i], opts, checks, probe))
      && (fp in r.fs ==> r.fs[fp] == fs[fp])
    decreases i
  {
    ListArchivesCons(fs, dataDir, names, opts, checks, probe);
    ListEntrySpec(fs, dataDir, names[0], opts, checks, probe);
    var t := ListEntry(fs, dataDir, names[0], opts, checks, probe).value;
    var rest := names[1..];
    if i == 0 {
      FirstUnlistedAfter(fs, dataDir, names);
      ListArchivesFrame(t.fs, dataDir, rest, opts, checks, probe);
    } else {
      ListArchivesDeletesAt(t.fs, dataDir, rest, opts, checks, probe, i - 1);
      ListedDistinct(fs, dataDir, names, 0, i);
      assert Listed(dataDir, rest, i - 1) == Listed(dataDir, names, i);
      DeletesUnderOtherTurn(fs, t.fs, ListArchives(t.fs, dataDir, rest, opts, checks, probe).fs,
                            Listed(dataDir, names, i), names[i], opts, checks, probe);
    }
  }

  /** An archive's verdict depends only on its own contents. */
  lemma CheckUnderOtherTurn(fs: FileSystem, mid: FileSystem, fp: Path, name: string,
                            checks: Option<map<string, string>>, probe: Probe)
    requires fp in fs && fp in mid && mid[fp] == fs[fp]
    ensures Check(mid, fp, name, checks, probe) == Check(fs, fp, name, checks, probe)
  {
  }

  /** The first archive is none of the later ones. */
  lemma FirstUnlistedAfter(fs: FileSystem, dataDir: Path, names: seq<string>)
    requires Globbed(fs, dataDir, names) && |names| > 0
    ensures forall k :: 0 <= k < |names[1..]| ==> Listed(dataDir, names, 0) != Listed(dataDir, names[1..], k)
  {
    forall k | 0 <= k < |names[1..]|
      ensures Listed(dataDir, names, 0) != Listed(dataDir, names[1..], k)
    {
      ListedDistinct(fs, dataDir, names, 0, k + 1);
      assert Listed(dataDir, names[1..], k) == Listed(dataDir, names, k + 1);
    }
  }

  /** Whether an archive is deleted depends only on its own contents, so a turn on
      another archive leaves the later decision as it was. */
  lemma DeletesUnderOtherTurn(fs: FileSystem, mid: FileSystem, last: FileSystem, fp: Path, name: string,
                              opts: Options, checks: Option<map<string, string>>, probe: Probe)
    requires fp in fs && fp in mid && mid[fp] == fs[fp]
    requires fp in last <==> !Deletes(mid, fp, name, opts, checks, probe)
    requires fp in last ==> last[fp] == mid[fp]
    ensures fp in last <==> !Deletes(fs, fp, name, opts, checks, probe)
    ensures fp in last ==> last[fp] == fs[fp]
  {
    CheckUnderOtherTurn(fs, mid, fp, name, checks, probe);
  }

  /** Over the archives a glob finds, the loop never fails; it reports every archive in
      order with the verdict its contents earn, deletes exactly the archives `Deletes`
      picks, and changes nothing else. */
  lemma ListArchivesSpec(fs: FileSystem, dataDir: Path, names: seq<string>, opts: Options,
                         checks: Option<map<string, string>>, probe: Probe)
    requires Globbed(fs, dataDir, names)
    ensures var r := ListArchives(fs, dataDir, names, opts, checks, probe);
      && r.failure.None?
      && |r.report| == |names|
      && forall i :: 0 <= i < |names| ==>
           var fp := dataDir + [names[i]];
           && r.report[i] == (names[i], Check(fs, fp, names[i], checks, probe).value)
           && (fp in r.fs <==> !Deletes(fs, fp, names[i], opts, checks, probe))
           && (fp in r.fs ==> r.fs[fp] == fs[fp])
    ensures var r := ListArchives(fs, dataDir, names, opts, checks, probe);
      forall p :: (forall i :: 0 <= i < |names| ==> p != dataDir + [names[i]]) ==>
        (p in r.fs <==> p in fs) && (p in fs ==> r.fs[p] == fs[p])
  {
    ListArchivesFrame(fs, dataDir, names, opts, checks, probe);
    forall i | 0 <= i < |names|
      ensures var r := ListArchives(fs, dataDir, names, opts, checks, probe);
        var fp := dataDir + [names[i]];
        && r.report[i] == (names[i], Check(fs, fp, names[i], checks, probe).value)
        && (fp in r.fs <==> !Deletes(fs, fp, names[i], opts, checks, probe))
        && (fp in r.fs ==> r.fs[fp] == fs[fp])
    {
      ListArchivesReportAt(fs, dataDir, names, opts, checks, probe, i);
      ListArchivesDeletesAt(fs, dataDir, names, opts, checks, probe, i);
    }
  }

  lemma {:induction false} ArchivesWithoutDeletion(fs: FileSystem, dataDir: Path, names: seq<string>, opts: Options,
                                                   checks: Option<map<string, string>>, probe: Probe)
    requires !opts.deleteMismatched && !opts.deleteEmpty && !opts.deleteUndersized
    ensures ListArchives(fs, dataDir, names, opts, checks, probe).fs == fs
    decreases |names|
  {
    if |names| > 0 {
      ArchivesWithoutDeletion(fs, dataDir, names[1..], opts, checks, probe);
    }
  }

  /** A listing with no delete flag deletes nothing. */
  lemma ListingWithoutDeletion(fs: FileSystem, dataDir: Path, names: seq<string>, downloaded: bool, opts: Options,
                               checksumText: string, probe: Probe)
    requires !opts.deleteMismatched && !opts.deleteEmpty && !opts.deleteUndersized
    ensures ListFiles(fs, dataDir, names, downloaded, opts, checksumText, probe).fs == fs
  {
    var checks := if opts.verify then ParseChecksumText(checksumText) else Success(map[]);
    if checks.Success? && downloaded {
      ArchivesWithoutDeletion(fs, dataDir, names, opts, if opts.verify then Some(checks.value) else None, probe);
    }
  }

  /** The whole listing: with `verify`, a malformed checksum file ends the run before any
      archive is looked at or deleted; without `downloaded` nothing is listed; otherwise,
      over the archives a glob finds, every archive is reported in order, "verified"
      exactly when `verify` is set and its digest is the hash the checksum file gives its
      name. */
  lemma ListFilesSpec(fs: FileSystem, dataDir: Path, names: seq<string>, downloaded: bool, opts: Options,
                      checksumText: string, probe: Probe)
    ensures opts.verify && ParseChecksumText(checksumText).Failure? ==>
      ListFiles(fs, dataDir, names, downloaded, opts, checksumText, probe)
      == Listing(fs, [], Some(ParseChecksumText(checksumText).error))
    ensures !downloaded ==>
      ListFiles(fs, dataDir, names, downloaded, opts, checksumText, probe).fs == fs
      && ListFiles(fs, dataDir, names, downloaded, opts, checksumText, probe).report == []
    ensures var r := ListFiles(fs, dataDir, names, downloaded, opts, checksumText, probe);
      var checks := ParseChecksumText(checksumText);
      downloaded && Globbed(fs, dataDir, names) && (!opts.verify || checks.Success?) ==>
        && r.failure.None?
        && |r.report| == |names|
        && forall i :: 0 <= i < |names| ==>
             && r.report[i].0 == names[i]
             && (r.report[i].1 == Verified <==>
                   opts.verify && names[i] in checks.value
                   && checks.value[names[i]] == probe.digest(fs[dataDir + [names[i]]]))
  {
    var checks := ParseChecksumText(checksumText);
    if downloaded && Globbed(fs, dataDir, names) && (!opts.verify || checks.Success?) {
      var given := if opts.verify then Some(checks.value) else None;
      ListFilesIsArchives(fs, dataDir, names, opts, checksumText, probe);
      ListArchivesFrame(fs, dataDir, names, opts, given, probe);
      var r := ListArchives(fs, dataDir, names, opts, given, probe);
      forall i | 0 <= i < |names|
        ensures r.report[i].0 == names[i]
        ensures r.report[i].1 == Verified <==>
          opts.verify && names[i] in checks.value
          && checks.value[names[i]] == probe.digest(fs[dataDir + [names[i]]])
      {
        ListArchivesReportAt(fs, dataDir, names, opts, given, probe, i);
        CheckSpec(fs, dataDir + [names[i]], names[i], given, probe);
      }
    }
  }

  /** With the checksum file read (or not needed) and `downloaded` set, the listing is
      the loop over the archives, given the checksums only under `verify`. */
  lemma ListFilesIsArchives(fs: FileSystem, dataDir: Path, names: seq<string>, opts: Options,
                            checksumText: string, probe: Probe)
    requires !opts.verify || ParseChecksumText(checksumText).Success?
    ensures ListFiles(fs, dataDir, names, true, opts, checksumText, probe)
      == ListArchives(fs, dataDir, names, opts,
                      if opts.verify then Some(ParseChecksumText(checksumText).value) else None, probe)
  {
  }

  // ------------------------------------------------------------ the loop as written

  /** Whether the source's turn on an existing archive `stat`s it after deleting it: its
      checksum mismatches under `delete_mismatched`, and a size check is due, because
      `delete_empty` is set or `delete_undersized` is set and the server announces a size. */
  predicate StatsDeleted(fs: FileSystem, fp: Path, name: string, opts: Options,
                         checks: Option<map<string, string>>, probe: Probe)
  {
    && fp in fs && Check(fs, fp, name, checks, probe).Success?
    && Check(fs, fp, name, checks, probe).value.Mismatch? && opts.deleteMismatched
    && (opts.deleteEmpty || (opts.deleteUndersized && probe.remoteSize(name).Some?))
  }

  /** The loop of lines 38-90 over the source's turns. */
  function ListArchivesAsWritten(fs: FileSystem, dataDir: Path, names: seq<string>, opts: Options,
                                 checks: Option<map<string, string>>, probe: Probe): Listing
    decreases |names|
  {
    if |names| == 0 then Listing(fs, [], None)
    else
      match ListEntryAsWritten(fs, dataDir, names[0], opts, checks, probe)
      case Failure(e) => Listing(fs, [], Some(e))
      case Success(t) =>
        var rest := ListArchivesAsWritten(t.fs, dataDir, names[1..], opts, checks, probe);
        Listing(rest.fs, [(names[0], t.verdict)] + rest.report, rest.failure)
  }

  /** `list_files` as the source has it: `ListFiles` over the source's turns. */
  function ListFilesAsWritten(fs: FileSystem, dataDir: Path, names: seq<string>, downloaded: bool, opts: Options,
                              checksumText: string, probe: Probe): Listing
  {
    var checks := if opts.verify then ParseChecksumText(checksumText) else Success(map[]);
    if checks.Failure? then Listing(fs, [], Some(checks.error))
    else if !downloaded then Listing(fs, [], None)
    else ListArchivesAsWritten(fs, dataDir, names, opts, if opts.verify then Some(checks.value) else None, probe)
  }

  /** The source's turn on an archive it deletes and then `stat`s raises
      `FileNotFoundError`; on any other existing archive it is the corrected turn. */
  lemma AsWrittenTurn(fs: FileSystem, dataDir: Path, name: string, opts: Options,
                      checks: Option<map<string, string>>, probe: Probe)
    requires Join(dataDir, name) in fs
    ensures StatsDeleted(fs, Join(dataDir, name), name, opts, checks, probe) ==>
      ListEntryAsWritten(fs, dataDir, name, opts, checks, probe) == Failure(FileMissing(Join(dataDir, name)))
    ensures !StatsDeleted(fs, Join(dataDir, name), name, opts, checks, probe) ==>
      ListEntryAsWritten(fs, dataDir, name, opts, checks, probe) == ListEntry(fs, dataDir, name, opts, checks, probe)
  {
    ListEntryAgrees(fs, dataDir, name, opts, checks, probe);
  }

  /** Whether a later archive is deleted and then `stat`ed does not depend on the first
      turn. */
  lemma StatsDeletedAfterFirst(fs: FileSystem, dataDir: Path, names: seq<string>, opts: Options,
                               checks: Option<map<string, string>>, probe: Probe, i: nat)
    requires Globbed(fs, dataDir, names) && 0 < i < |names|
    ensures ListEntry(fs, dataDir, names[0], opts, checks, probe).Success?
    ensures var t := ListEntry(fs, dataDir, names[0], opts, checks, probe).value;
      StatsDeleted(t.fs, Listed(dataDir, names[1..], i - 1), names[1..][i - 1], opts, checks, probe)
      <==> StatsDeleted(fs, Listed(dataDir, names, i), names[i], opts, checks, probe)
  {
    ListEntrySpec(fs, dataDir, names[0], opts, checks, probe);
    var t := ListEntry(fs, dataDir, names[0], opts, checks, probe).value;
    assert Listed(dataDir, names[1..], i - 1) == Listed(dataDir, names, i);
    ListedDistinct(fs, dataDir, names, 0, i);
    CheckUnderOtherTurn(fs, t.fs, Listed(dataDir, names, i), names[i], checks, probe);
  }

  /** When no listed archive is deleted and then `stat`ed, the source's loop is the
      corrected one. */
  lemma {:induction false} ListArchivesAsWrittenAgrees(fs: FileSystem, dataDir: Path, names: seq<string>, opts: Options,
                                                       checks: Option<map<string, string>>, probe: Probe)
    requires Globbed(fs, dataDir, names)
    requires forall i :: 0 <= i < |names| ==> !StatsDeleted(fs, Listed(dataDir, names, i), names[i], opts, checks, probe)
    ensures ListArchivesAsWritten(fs, dataDir, names, opts, checks, probe) == ListArchives(fs, dataDir, names, opts, checks, probe)
    decreases |names|
  {
    if |names| > 0 {
      assert Join(dataDir, names[0]) == Listed(dataDir, names, 0);
      AsWrittenTurn(fs, dataDir, names[0], opts, checks, probe);
      ListArchivesCons(fs, dataDir, names, opts, checks, probe);
      ListEntrySpec(fs, dataDir, names[0], opts, checks, probe);
      var t := ListEntry(fs, dataDir, names[0], opts, checks, probe).value;
      var rest := names[1..];
      forall i | 0 <= i < |rest|
        ensures !StatsDeleted(t.fs, Listed(dataDir, rest, i), rest[i], opts, checks, probe)
      {
        StatsDeletedAfterFirst(fs, dataDir, names, opts, checks, probe, i + 1);
      }
      ListArchivesAsWrittenAgrees(t.fs, dataDir, rest, opts, checks, probe);
    }
  }

  /** The source's loop stops at the first archive it deletes and then `stat`s, raising
      `FileNotFoundError` for it; the archives before it are reported as by the corrected
      loop. */
  lemma {:induction false} ListArchivesAsWrittenFails(fs: FileSystem, dataDir: Path, names: seq<string>, opts: Options,
                                                      checks: Option<map<string, string>>, probe: Probe, k: nat)
    requires Globbed(fs, dataDir, names) && k < |names|
    requires StatsDeleted(fs, Listed(dataDir, names, k), names[k], opts, checks, probe)
    requires forall i :: 0 <= i < k ==> !StatsDeleted(fs, Listed(dataDir, names, i), names[i], opts, checks, probe)
    ensures |ListArchives(fs, dataDir, names, opts, checks, probe).report| == |names|
    ensures var r := ListArchivesAsWritten(fs, dataDir, names, opts, checks, probe);
      && r.failure == Some(FileMissing(Listed(dataDir, names, k)))
      && r.report == ListArchives(fs, dataDir, names, opts, checks, probe).report[..k]
    decreases k
  {
    ListArchivesLength(fs, dataDir, names, opts, checks, probe);
    if k == 0 {
      AsWrittenStops(fs, dataDir, names, opts, checks, probe);
    } else {
      AsWrittenCons(fs, dataDir, names, opts, checks, probe);
      var t := ListEntry(fs, dataDir, names[0], opts, checks, probe).value;
      var rest := names[1..];
      forall i | 0 <= i < k - 1
        ensures !StatsDeleted(t.fs, Listed(dataDir, rest, i), rest[i], opts, checks, probe)
      {
        StatsDeletedAfterFirst(fs, dataDir, names, opts, checks, probe, i + 1);
      }
      StatsDeletedAfterFirst(fs, dataDir, names, opts, checks, probe, k);
      ListArchivesAsWrittenFails(t.fs, dataDir, rest, opts, checks, probe, k - 1);
      assert Listed(dataDir, rest, k - 1) == Listed(dataDir, names, k);
      PrefixOfCons((names[0], t.verdict), ListArchives(t.fs, dataDir, rest, opts, checks, probe).report, k);
    }
  }

  /** Over globbed archives the loop reports one verdict per archive. */
  lemma {:induction false} ListArchivesLength(fs: FileSystem, dataDir: Path, names: seq<string>, opts: Options,
                                              checks: Option<map<string, string>>, probe: Probe)
    requires Globbed(fs, dataDir, names)
    ensures |ListArchives(fs, dataDir, names, opts, checks, probe).report| == |names|
    decreases |names|
  {
    if |names| > 0 {
      ListArchivesCons(fs, dataDir, names, opts, checks, probe);
      var t := ListEntry(fs, dataDir, names[0], opts, checks, probe).value;
      ListArchivesLength(t.fs, dataDir, names[1..], opts, checks, probe);
    }
  }

  /** The source's loop takes the corrected first turn when that turn does not `stat` a
      deleted archive, and goes on with both loops' reports lined up. */
  lemma AsWrittenCons(fs: FileSystem, dataDir: Path, names: seq<string>, opts: Options,
                      checks: Option<map<string, string>>, probe: Probe)
    requires Globbed(fs, dataDir, names) && |names| > 0
    requires !StatsDeleted(fs, Listed(dataDir, names, 0), names[0], opts, checks, probe)
    ensures ListEntry(fs, dataDir, names[0], opts, checks, probe).Success?
    ensures var t := ListEntry(fs, dataDir, names[0], opts, checks, probe).value;
      && Globbed(t.fs, dataDir, names[1..])
      && (var rest := ListArchivesAsWritten(t.fs, dataDir, names[1..], opts, checks, probe);
          ListArchivesAsWritten(fs, dataDir, names, opts, checks, probe)
          == Listing(rest.fs, [(names[0], t.verdict)] + rest.report, rest.failure))
      && (var rest := ListArchives(t.fs, dataDir, names[1..], opts, checks, probe);
          ListArchives(fs, dataDir, names, opts, checks, probe).report == [(names[0], t.verdict)] + rest.report)
  {
    assert Join(dataDir, names[0]) == Listed(dataDir, names, 0);
    AsWrittenTurn(fs, dataDir, names[0], opts, checks, probe);
    ListArchivesCons(fs, dataDir, names, opts, checks, probe);
  }

  /** The source's loop ends at once when its first turn `stat`s a deleted archive. */
  lemma AsWrittenStops(fs: FileSystem, dataDir: Path, names: seq<string>, opts: Options,
                       checks: Option<map<string, string>>, probe: Probe)
    requires Globbed(fs, dataDir, names) && |names| > 0
    requires StatsDeleted(fs, Listed(dataDir, names, 0), names[0], opts, checks, probe)
    ensures ListArchivesAsWritten(fs, dataDir, names, opts, checks, probe)
      == Listing(fs, [], Some(FileMissing(Listed(dataDir, names, 0))))
  {
    assert Join(dataDir, names[0]) == Listed(dataDir, names, 0);
    AsWrittenTurn(fs, dataDir, names[0], opts, checks, probe);
  }

  /** The source's `list_files` agrees with the corrected one whenever the options cannot
      make a turn `stat` a deleted archive: without `delete_mismatched`, or with neither
      size check. Otherwise, with the checksum file read and `downloaded` set, it raises
      `FileNotFoundError` at the first listed archive whose checksum mismatches and whose
      size is then checked, having reported only the archives before it. */
  lemma ListFilesAsWrittenSpec(fs: FileSystem, dataDir: Path, names: seq<string>, downloaded: bool, opts: Options,
                               checksumText: string, probe: Probe, k: nat)
    ensures Globbed(fs, dataDir, names) && (!opts.deleteMismatched || (!opts.deleteEmpty && !opts.deleteUndersized)) ==>
      ListFilesAsWritten(fs, dataDir, names, downloaded, opts, checksumText, probe)
      == ListFiles(fs, dataDir, names, downloaded, opts, checksumText, probe)
    ensures var checks := ParseChecksumText(checksumText);
      && Globbed(fs, dataDir, names) && downloaded && opts.verify && checks.Success? && k < |names|
      && StatsDeleted(fs, Listed(dataDir, names, k), names[k], opts, Some(checks.value), probe)
      && (forall i :: 0 <= i < k ==> !StatsDeleted(fs, Listed(dataDir, names, i), names[i], opts, Some(checks.value), probe))
      ==>
        var r := ListFilesAsWritten(fs, dataDir, names, downloaded, opts, checksumText, probe);
        && |ListFiles(fs, dataDir, names, downloaded, opts, checksumText, probe).report| == |names|
        && r.failure == Some(FileMissing(dataDir + [names[k]]))
        && r.report == ListFiles(fs, dataDir, names, downloaded, opts, checksumText, probe).report[..k]
  {
    var parsed := ParseChecksumText(checksumText);
    if Globbed(fs, dataDir, names) && downloaded && (!opts.verify || parsed.Success?) {
      var given := if opts.verify then Some(parsed.value) else None;
      if !opts.deleteMismatched || (!opts.deleteEmpty && !opts.deleteUndersized) {
        ListArchivesAsWrittenAgrees(fs, dataDir, names, opts, given, probe);
      }
      if opts.verify && k < |names|
         && StatsDeleted(fs, Listed(dataDir, names, k), names[k], opts, given, probe)
         && (forall i :: 0 <= i < k ==> !StatsDeleted(fs, Listed(dataDir, names, i), names[i], opts, given, probe)) {
        ListArchivesAsWrittenFails(fs, dataDir, names, opts, given, probe, k);
      }
    }
  }
}
