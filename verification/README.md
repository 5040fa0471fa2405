# ps_reddit_tool comment pipeline, modelled in Dafny

This project models the pipeline that ps_reddit_tool runs over the Pushshift comment
archives:

- **downloading**: fetch the monthly (before 2020) or daily (from 2020) `RC_…` archives of
  a month, or of a range of years, into the data folder, skipping files already there
  unless forced;
- **extraction**: copy the comments of one subreddit out of a month's archives into one
  monthly file `data_dir/{sub}/{sub}_{YYYY-MM}`;
- **processing**: split that monthly file into one file per UTC day of creation;
- **verification**: read the server's checksum file, list the downloaded archives with a
  checksum verdict each, and delete mismatched, empty or undersized ones on request.

The world is a value:

- a file system is a map from paths (sequences of components) to the lines a file holds;
- an exception that escapes an invocation is the `failure` part of its result, next to the
  file system as the invocation left it.

Whatever lies outside the pipeline's own logic is a parameter:

- JSON decoding (`Helpers.Parser`);
- the network (`Downloading.Fetcher`);
- digests, file sizes and the server's announced sizes (`Verification.Probe`).

Python's own semantics are written out where the pipeline depends on them:

- `str(int)` and `zfill`;
- `str.split(sep)`, `str.split()` and `str.strip()` over Python's whitespace set;
- `pathlib`'s `/` for a name that is empty or a single plain component;
- `datetime.date` validity and `isoformat()`;
- `utcfromtimestamp`, which uses floor division and the range of years 1–9999.

Modules: `Wrappers`, `Text`, `Calendar`, `Environment`, `Seqs` (the Python substrate),
`Helpers`, `Archives` (the archive naming and the batch months shared by extraction and
downloading), `Extraction`, `Downloading`, `Processing`, `Verification`.

## Model

| member | source | states |
|---|---|---|
| Helpers.CodecEras | helpers.py:4-10 | bz2 exactly for months before 2017-12, xz exactly from 2017-12 to 2018-09, zst exactly from 2018-10 on |
| Helpers.CodecMonotone | helpers.py:4-10 | as months advance the inferred format never returns to an older one |
| Helpers.ExtensionNamesCodec | helpers.py:5-9 | the extension is one of bz2, xz, zst and identifies the codec uniquely |
| Helpers.IsRelevantLnOutcome | helpers.py:13-15 | the relevance test raises exactly on unparsable lines or a missing subreddit, otherwise answers whether the lower-cased subreddit equals the target |
| Helpers.RelevanceIgnoresCase | helpers.py:15 | for a lower-case target, a line is kept exactly when its subreddit equals the target ignoring ASCII case |
| Helpers.UpperCaseTargetMatchesNothing | helpers.py:15 | a target with an upper-case letter matches no line, which is why callers lower-case it |
| Text.AsciiLowerIdempotent | processing.py:12 | lower-casing twice equals lower-casing once |
| Text.IntToStringRoundTrip | extraction.py:21 | `str(year)` is read back as the same integer, negative years included |
| Text.ZFillDigits | extraction.py:21 | `zfill` pads a digit string with zeros to the width, keeping its value |
| Text.PadNatRoundTrip | extraction.py:37 | a zero-padded field of `isoformat()` has exactly its width in digits and reads back as its value |
| Text.ZFillIntShape | extraction.py:21 | `str(month).zfill(2)` is at least two characters, all digits for a non-negative month, unchanged for a negative one |
| Text.SplitJoin | downloading.py:22 | joining the parts of `split("/")` with `/` rebuilds the string |
| Text.JoinSplit | downloading.py:22 | splitting a `/`-join of separator-free parts gives back the parts |
| Text.LastSegmentAfterSep | downloading.py:22 | `u.split("/")[-1]` of a URL ending in `/name` is `name` |
| Text.StripEmptyIffBlank | verification.py:11 | a line strips to nothing exactly when all its characters are whitespace |
| Text.TokensAreWords | verification.py:11 | `split()` yields non-empty fields without whitespace |
| Text.TokensEmptyIffBlank | verification.py:11 | `split()` yields no field exactly for an all-whitespace line |
| Text.TokensOfStrip | verification.py:11 | `ln.strip().split()` equals `ln.split()` |
| Calendar.OrdinalRoundTrip | processing.py:24 | every valid date has an ordinal in range, and the ordinal maps back to the date |
| Calendar.OrdinalWithinYear | processing.py:24 | a valid date's ordinal lies after the last day of the previous year and no later than the last day of its own year |
| Calendar.UtcDate | processing.py:24 | `utcfromtimestamp(t).date()` is defined exactly for timestamps in `datetime`'s range, is a valid date, and lies floor(t/86400) days after 1970-01-01 |
| Calendar.UtcDateMonotone | processing.py:24 | later timestamps never give earlier days |
| Calendar.UtcDateSameDay | processing.py:24-25 | two timestamps give the same day exactly when they fall in the same 86400-second block |
| Calendar.IsoFormatRoundTrip | processing.py:28 | `isoformat()` of a valid date parses back to the date |
| Calendar.IsoFormatInjective | processing.py:28 | different dates have different `isoformat()` strings |
| Calendar.MonthStampIsNotIsoDate | processing.py:14-28 | a `YYYY-MM` stamp is never the `isoformat()` of a day |
| Calendar.DaysOfMonthSpec | extraction.py:30-39 | the days `datetime.date` accepts for d in 1..31 are exactly days 1..length of the month, in order, 28 to 31 of them for a valid month |
| Archives.ArchiveNamesSpec | extraction.py:26-39 | a month's archives are the single monthly archive before 2020 and otherwise one per valid day, in day order, with the inferred extension |
| Archives.ArchiveNamesPrefix | extraction.py:27 | every archive name starts with `RC_` |
| Archives.ArchiveNameInjective | extraction.py:37 | two archive names of one codec agree exactly when their date stamps do |
| Archives.ArchiveNamesDistinct | downloading.py:33-39 | a month never lists the same archive twice |
| Archives.ArchiveNamesHaveNoSlash | downloading.py:30-39 | no archive name contains `/`, so the URL's last segment is the name |
| Archives.MonthStampChars | extraction.py:21 | a month stamp consists of digits and dashes |
| Archives.IsoFormatChars | extraction.py:37 | an ISO date stamp consists of digits and dashes |
| Archives.ArchiveNameHasNoSlash | downloading.py:30 | an archive name built from a date stamp has no path separator |
| Archives.PeriodsOfYearsMembers | extraction.py:78-86 | the months visited for years first..last are exactly the archived months (2005-12 and later) of those years |
| Archives.PeriodsOfYearsIncreasing | downloading.py:69-77 | the months are visited in strictly increasing order |
| Archives.BatchPeriodsSpec | extraction.py:74-86 | the batch ignores the order of its bounds and visits each archived month of the years between them once, in increasing order |
| Extraction.InputFilesSpec | extraction.py:26-39 | a month's inputs are `data_dir / name` for each archive name of the month, in order |
| Extraction.OutputIsNotAnInput | extraction.py:19-22 | the monthly output file is never one of any month's input archives |
| Extraction.FilterLinesSpec | extraction.py:48-63 | reading an archive fails exactly when some line is unparsable or lacks a subreddit; otherwise the output is exactly the relevant lines in input order |
| Extraction.FilterLinesStops | extraction.py:48-50 | a failing read stops at the first bad line, having written the relevant lines before it |
| Extraction.LastPresent | extraction.py:40-41 | the chosen archive is an input that exists, and no input after it exists |
| Extraction.LastPresentSpec | extraction.py:40-41 | no archive is chosen exactly when no input exists |
| Extraction.ExtractInputsFrame | extraction.py:40-66 | the input loop writes only the output file, which exists afterwards exactly when it did before or some input exists |
| Extraction.ExtractInputsLastWins | extraction.py:40-44 | each present archive reopens the output with mode "w", so a completed loop leaves only the last present archive's relevant lines |
| Extraction.ExtractInputsFailure | extraction.py:44-63 | a failed loop stopped in the first present archive holding a bad line, leaving that archive's relevant lines before it |
| Extraction.ExtractFromDumpSpec | extraction.py:13-70 | skip when the output exists and not forced; otherwise only the output changes, to the last present archive's relevant lines; without force no existing file changes |
| Extraction.ExtractFromDumpFrame | extraction.py:13-70 | one month's extraction changes no file but its output, and without force changes no existing file |
| Extraction.ExtractMonthsFrame | extraction.py:78-86 | extracting a run of months changes only those months' outputs; without force no existing file changes |
| Extraction.BatchExtractFrame | extraction.py:74-86 | the batch writes only the outputs of the months it visits, and without force never overwrites a file |
| Downloading.PathsForDumpUrls | downloading.py:21-40 | the paths derived from a month's URLs are exactly the files the extraction reads |
| Downloading.PartitionPairsSpec | downloading.py:43-48 | the download list is the pairs whose file is missing (or all when forced) in input order; the skip list is the rest |
| Downloading.PartitionCovers | downloading.py:43-48 | download and skip lists together hold every path exactly as often as the input does |
| Downloading.PartitionDownloadsAligned | downloading.py:41-48 | the paths and URLs to download, zipped again, are exactly the pairs whose file is missing (or all when forced), in input order |
| Downloading.SelectedPaths | downloading.py:43-48 | every path selected for download is missing or forced; every path left out exists and force is off |
| Downloading.PartitionDownloadsSpec | downloading.py:41-48 | paths and URLs to download stay aligned; every downloaded path is missing or forced, every skipped one exists; nothing is skipped when forced |
| Downloading.SecondCheckIsRedundant | downloading.py:54 | re-testing `is_file()` in the download loop gives the same result as looping over all pairs |
| Downloading.FetchAllGrows | downloading.py:53-63 | the download loop never removes a file |
| Downloading.FetchAllSpec | downloading.py:53-63 | with distinct paths, each path ends with the fetched contents if it needed a download that succeeded, else its old state; other paths are unchanged |
| Downloading.InputFilesDistinct | downloading.py:32-40 | a month's download paths are distinct |
| Downloading.DownloadDumpIsFetchAll | downloading.py:40-63 | partitioning then downloading equals one download loop over all the month's path/URL pairs |
| Downloading.FetchZipSpec | downloading.py:53-63 | over distinct paths zipped with their URLs, each path ends as its own download decides, no other path changes, and without force no existing file changes |
| Downloading.DownloadDumpSpec | downloading.py:25-63 | every archive of the month is downloaded when missing or forced and the fetch succeeds, and keeps its state otherwise; no other path changes; without force no existing file changes |
| Downloading.DownloadMonthsFrame | downloading.py:69-77 | downloading a run of months touches only those months' archives; without force no existing file changes |
| Downloading.BatchDownloadFrame | downloading.py:66-77 | the batch touches only archives of the months it visits; without force no existing file changes |
| Processing.DayOf | processing.py:23-24 | a line's day is defined exactly when it parses, has `created_utc`, and the timestamp is in range; the day is a valid date |
| Processing.DayPathInjective | processing.py:28 | different days have different day files |
| Processing.DayFilesInjective | processing.py:28 | the day-file naming is injective |
| Processing.DayPathIsNotSource | processing.py:14-28 | no day file is the monthly file being split |
| Processing.SplitLines | processing.py:22-32 | the file of the open day always exists |
| Processing.SplitLinesFrame | processing.py:22-32 | only the files of days occurring in the input are written |
| Processing.SplitLinesFails | processing.py:23-24 | the loop fails exactly when some line has no day |
| Processing.SplitLinesStops | processing.py:22-24 | a failure comes from the first line without a day, with the files as the lines before it left them |
| Processing.SplitLinesCurDay | processing.py:25-30 | after a successful loop the open file is the last line's day, and none is open for empty input |
| Processing.SplitLinesOpens | processing.py:25-30 | a successful loop opens one output per maximal block of same-day lines |
| Processing.SplitLinesStep | processing.py:25-32 | one more line keeps each day's file equal to its last block of lines |
| Processing.SplitLinesLastRun | processing.py:25-32 | after a successful loop each day's file holds the last block of consecutive lines of that day, because mode "w" truncates on every return |
| Processing.TimestampsOrderDays | processing.py:24 | lines with in-range, non-decreasing timestamps have non-decreasing days |
| Processing.TrailingRunChronological | processing.py:22-32 | in chronological input the trailing block of the latest day is all of that day's lines |
| Processing.LastRunChronological | processing.py:22-32 | in chronological input a day's last block is all of that day's lines, in order |
| Processing.SplitExtractedSpec | processing.py:9-41 | a missing monthly file changes nothing; the split fails exactly on a line without a day; the source is deleted exactly on completion with delete_source; only files of occurring days change |
| Processing.SourceNotTouched | processing.py:14-28 | the monthly file is never among the day files written |
| Processing.SplitExtractedContents | processing.py:22-32 | after a complete split each occurring day's file holds that day's last block, and for chronological input all that day's lines in order |
| Verification.StripEach | verification.py:12 | stripping the fields keeps their number |
| Verification.ParseChecksumText | verification.py:9-13 | parsing succeeds exactly when every non-blank line has two fields; otherwise it reports the first bad line; on success each name maps to the hash on the last row naming it |
| Verification.ParseRowsSucceeds | verification.py:12 | the dictionary is built exactly when every row unpacks into two fields |
| Verification.ParseRowsFirstError | verification.py:12 | a failure names the first row that does not unpack |
| Verification.ParseRowsLookup | verification.py:12 | a name's entry is the hash of the last row naming it |
| Verification.ParseRowsFailure | verification.py:12 | a failure is raised by a row that does not unpack, all rows before it being well formed |
| Verification.ParseRowsLookupAll | verification.py:12 | on success the dictionary's keys and values are those of the last row for each name |
| Verification.ChecksumLinesSpec | verification.py:11 | the rows are exactly the non-blank lines of the file |
| Verification.StripField | verification.py:12 | stripping a whitespace-free field leaves it unchanged |
| Verification.SplitFormat | verification.py:11 | splitting a `sha256sum`-style file on newlines gives its rows and a final empty line |
| Verification.RowTokens | verification.py:11 | a row `hash␠␠name` is non-blank and splits into hash and name |
| Verification.StripWords | verification.py:12 | stripping fields that strip to themselves changes nothing |
| Verification.StripPair | verification.py:12 | stripping a pair of stripped fields changes nothing |
| Verification.RowFields | verification.py:11-12 | the fields of a row are exactly its hash and name |
| Verification.ParseRowsOfEntries | verification.py:12 | rows that split into hash and name build the map of their entries |
| Verification.FormatLines | verification.py:11 | the rows of a formatted checksum file are its entries' rows |
| Verification.ChecksumRoundTrip | verification.py:9-13 | parsing a formatted checksum file gives back the map of its entries |
| Verification.ChecksumMapSpec | verification.py:12 | the map has one key per entry name, and with distinct names each entry's hash is under its name |
| Verification.CheckSpec | verification.py:41-53 | no verdict without verify; "no checksum" exactly for names missing from the file; "verified" exactly on a digest match; a mismatch carries expected and found digests |
| Verification.ListEntrySpec | verification.py:55-90 | a turn on an existing archive never raises, reports its verdict, deletes it exactly when it is mismatched with delete_mismatched, or empty with delete_empty, or undersized with delete_undersized, and touches no other file |
| Verification.AsWrittenFailsOnDeletedMismatch | verification.py:59-63 | the source's turn raises on a mismatched archive deleted with delete_empty set; the corrected turn does not |
| Verification.ListEntryAgrees | verification.py:55-90 | where the source's turn completes, the corrected turn does the same; they differ only on a deleted mismatch followed by a size check |
| Verification.ListEntryKeepsGlob | verification.py:38-90 | the first turn over globbed archives never raises, and the remaining archives still exist |
| Verification.ListArchivesCons | verification.py:38-90 | over globbed archives the loop takes its first turn without raising and goes on with the remaining archives |
| Verification.ListArchivesFrame | verification.py:38-90 | over globbed archives the loop never raises, reports one verdict per archive, and changes no file but the listed archives |
| Verification.ListArchivesReportAt | verification.py:38-53 | the i-th reported archive is the i-th name with the verdict its contents earn before the loop |
| Verification.ListArchivesDeletesAt | verification.py:55-90 | the i-th archive is gone afterwards exactly when the flags condemn it, and otherwise keeps its contents |
| Verification.CheckUnderOtherTurn | verification.py:41-53 | an archive's verdict depends only on its own contents, so turns on other archives leave it unchanged |
| Verification.DeletesUnderOtherTurn | verification.py:55-90 | whether an archive is deleted depends only on its own contents, so turns on other archives do not change the decision |
| Verification.ListArchivesSpec | verification.py:38-90 | over globbed archives the listing never raises, reports every archive in order with its verdict, deletes exactly the archives the flags condemn, and changes nothing else |
| Verification.ArchivesWithoutDeletion | verification.py:38-90 | without delete flags the archive loop leaves the files unchanged |
| Verification.ListingWithoutDeletion | verification.py:28-90 | without delete flags the listing leaves the files unchanged |
| Verification.ListFilesSpec | verification.py:30-53 | with verify, a malformed checksum file ends the run before any archive is touched; otherwise every globbed archive is reported, "verified" exactly when its digest is the file's hash for its name |
| Verification.AsWrittenTurn | verification.py:55-90 | on an existing archive the source's turn raises `FileNotFoundError` for it exactly when it deletes a mismatched archive and a size check is due; otherwise it is the corrected turn |
| Verification.ListArchivesLength | verification.py:38-53 | over globbed archives the loop reports one verdict per archive |
| Verification.AsWrittenCons | verification.py:38-90 | when the first turn does not `stat` a deleted archive, the source's loop goes on from the corrected turn's files with the same first verdict |
| Verification.AsWrittenStops | verification.py:59-63 | when the first turn `stat`s a deleted archive, the source's loop ends at once with `FileNotFoundError` for it, having reported nothing and changed nothing |
| Verification.ListArchivesAsWrittenAgrees | verification.py:38-90 | when no listed archive is deleted for a mismatch and then size-checked, the source's loop is the corrected loop: same files, report and outcome |
| Verification.ListArchivesAsWrittenFails | verification.py:55-90 | the source's loop raises `FileNotFoundError` for the first archive deleted for a mismatch and then size-checked, having reported exactly the archives before it, with the corrected loop's verdicts |
| Verification.ListFilesAsWrittenSpec | verification.py:28-90 | over globbed archives, the source's `list_files` equals the corrected one without `delete_mismatched` or without both size checks; otherwise it raises at the first mismatched archive whose size is then checked, reporting only the archives before it |

## Left out

- Decompression (bz2, xz, zstd): an archive is modelled by the lines it decompresses to.
- UTF-8 decoding and `json.loads`: a `Parser` parameter. `Record` holds the `subreddit` and `created_utc` fields, the latter already passed through `int()`.
- `str.lower()`: modelled on ASCII letters only. Unicode case mapping is not modelled.
- `mkdir`, logging, timing, `count_and_log` and the progress counter: they do not affect files or results.
- `determine_data_dir`: the data folder is the `dataDir` parameter.
- The archive server: the `Fetcher` parameter, which answers a URL with the archive's contents or fails.
- Downloading.FetchOne: a failed download leaves the path as it was. `_download_file` may instead leave a partially written file once `open(filepath, 'wb')` has run. Retries and HTTP errors are not modelled.
- `_read_file_hash` (SHA-256) and `stat().st_size`: the `Probe` parameter maps contents to a digest and a size.
- `_check_url_content_length` is not part of this model. `Probe.remoteSize` returning `None` stands for the `TypeError` the source catches. A `None` return value would instead raise at verification.py:82; this is not represented.
- The clamp of `size_ratio` to 0.1–0.99 and the float threshold: folded into the `Probe.undersized` parameter.
- `helpers.get_file_size_info_str` is not part of this model. It is treated as not raising.
- `download_checksum_file`: the checksum file's text is a parameter of `ListFiles`.
- The sorted glob `RC_*-*.*`: its result is the `names` parameter.
- The "extracted" branch of `list_files`: it only prints.
- cli.py, config.py, streaming.py, prawtools.py, comments.py and submissions.py: outside the pipeline modelled here.
- Verification.ChecksumFields: the first `strip()` of `ln.strip().split()` is left out. `Text.TokensOfStrip` proves that it changes nothing.
- Verification.ListArchives: uses the corrected turn `Verification.ListEntry` (see Findings).
- Verification.ListFiles: models the corrected loop, which skips the size checks of an archive already deleted. The source's loop is `Verification.ListFilesAsWritten`; `Verification.ListFilesAsWrittenSpec` says where the two agree and where the source's raises (see Findings).
- Environment.Join: models pathlib's `/` only for an empty name or one plain component. pathlib also drops a `.` component, splits a name containing `/` into several components, and lets an absolute right operand replace the left one. The subreddit name reaches `/` unchecked (extraction.py:19-22, processing.py:13-14 and 28), so a name such as `a/b`, `.` or `/x` is not given pathlib's meaning here.
- Processing.SplitExtractedContents: processing.py:18 opens the monthly file in text mode, so `\r`, `\n` and `\r\n` all end a line and each is read back as `\n`. Extraction splits archives on `\n` only (extraction.py:46-50). The model reads a file as the lines it holds, so the day files hold the monthly file's lines verbatim only for lines without `\r`.
- Verification.ParseChecksumText: `read_text` at verification.py:10 translates `\r` and `\r\n` to `\n` before the split on `\n`. The model's `checksumText` stands for the text after that translation.

## Behaviour notes

Where the code's behaviour is easy to misread, the model follows the code:

- A line that does not decode or parse, or that lacks `subreddit`, raises and ends the
  extraction (helpers.py:13-15). It is not skipped.
- A line without `created_utc` raises and ends the split in the same way
  (processing.py:23-24).
- Extraction copies each relevant line as it is (extraction.py:50). It writes no JSON array
  brackets or separators.
- An archive with no relevant line still leaves an empty output file behind
  (extraction.py:44).
- Every present archive of a month reopens the output in mode "w" (extraction.py:44), so
  only the last present archive's lines remain.
- Splitting reads the monthly file line by line (processing.py:22-32). There is no size
  threshold and no in-memory variant.
- A day that comes back after another day reopens its file in mode "w" (processing.py:29),
  so the file keeps only that day's last block of lines.

## Findings

| source | as written | input that shows it | evidently intended | confidence | as-written member | corrected member |
|---|---|---|---|---|---|---|
| verification.py:59-63 | after `fp.unlink()` deletes a mismatched archive, the loop still calls `fp.stat()` for the size checks. The check at line 63 runs when `delete_empty` is set; the one at line 77 runs when `delete_undersized` is set and the server announces a size. The call raises `FileNotFoundError` and ends the listing. | `list_files(verify=True, delete_mismatched=True, delete_empty=True)` with a downloaded archive whose SHA-256 differs from the checksum file's hash | an archive already deleted skips the size checks, and the listing continues | not executed | Verification.ListEntryAsWritten, Verification.AsWrittenFailsOnDeletedMismatch, Verification.ListFilesAsWritten, Verification.ListFilesAsWrittenSpec | Verification.ListEntry, Verification.ListEntrySpec, Verification.ListFiles, Verification.ListFilesSpec |
