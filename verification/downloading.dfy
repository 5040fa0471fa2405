/** downloading.py: fetching the comment archives of a month, or of a range of years,
    into the data folder, skipping archives already there unless forced. The network
    is a parameter: a `Fetcher` answers each URL with the archive's contents, or with
    `None` where the download fails. */
module Downloading {
  import opened Wrappers
  import opened Text
  import opened Environment
  import opened Seqs
  import opened Archives
  import Extraction

  /** The folder on the archive server all comment archives are listed under. */
  const UrlBase := "https://files.pushshift.io/reddit/comments/"

  /** The URLs of a month's archives, in the order the source lists them. */
  function DumpUrls(year: int, month: int): seq<string>
  {
    var names := ArchiveNames(year, month);
    seq(|names|, i requires 0 <= i < |names| => UrlBase + names[i])
  }

  /** `_get_paths_for_urls(urls, data_dir)`: each URL's last `/`-separated segment, placed
      in the data folder. */
  function PathsForUrls(urls: seq<string>, dataDir: Path): seq<Path>
  {
    seq(|urls|, i requires 0 <= i < |urls| => Join(dataDir, LastSegment(urls[i], '/')))
  }

  /** The downloader saves every archive exactly where the extractor looks for it. */
  lemma PathsForDumpUrls(dataDir: Path, year: int, month: int)
    ensures PathsForUrls(DumpUrls(year, month), dataDir) == Extraction.InputFiles(dataDir, year, month)
  {
    var names := ArchiveNames(year, month);
    var prefix := "https://files.pushshift.io/reddit/comments";
    assert UrlBase == prefix + ['/'];
    ArchiveNamesHaveNoSlash(year, month);
    forall i | 0 <= i < |names|
      ensures LastSegment(UrlBase + names[i], '/') == names[i]
    {
      assert UrlBase + names[i] == prefix + ['/'] + names[i];
      LastSegmentAfterSep(prefix, names[i], '/');
    }
  }

  // ------------------------------------------------------------ the plan

  /** The loop over `zip(paths, urls)` splits the archives into those to download and
      those to skip. */
  datatype Plan = Plan(dlPaths: seq<Path>, dlUrls: seq<string>, skipPaths: seq<Path>)

  /** The test both loops make: `force is True or not fp.is_file()`. */
  predicate NeedsDownload(fs: FileSystem, force: bool, fp: Path) {
    force || fp !in fs
  }

  function Needed(fs: FileSystem, force: bool): ((Path, string)) -> bool {
    (pair: (Path, string)) => NeedsDownload(fs, force, pair.0)
  }

  function Present(fs: FileSystem, force: bool): ((Path, string)) -> bool {
    (pair: (Path, string)) => !NeedsDownload(fs, force, pair.0)
  }

  /** The partition loop over already zipped pairs, appending to the lists in order. */
  function PartitionPairs(pairs: seq<(Path, string)>, fs: FileSystem, force: bool): Plan
    decreases |pairs|
  {
    if |pairs| == 0 then Plan([], [], [])
    else
      var plan := PartitionPairs(pairs[..|pairs| - 1], fs, force);
      var (fp, url) := pairs[|pairs| - 1];
      if NeedsDownload(fs, force, fp) then Plan(plan.dlPaths + [fp], plan.dlUrls + [url], plan.skipPaths)
      else Plan(plan.dlPaths, plan.dlUrls, plan.skipPaths + [fp])
  }

  /** The partition in `download_dump`: `zip` pairs the paths with their URLs, as many as
      the shorter list has. */
  function PartitionDownloads(paths: seq<Path>, urls: seq<string>, fs: FileSystem, force: bool): Plan
  {
    PartitionPairs(Zip(paths, urls), fs, force)
  }

  lemma {:induction false} PartitionPairsSpec(pairs: seq<(Path, string)>, fs: FileSystem, force: bool)
    ensures PartitionPairs(pairs, fs, force) == Plan(Firsts(Filter(pairs, Needed(fs, force))),
                                                     Seconds(Filter(pairs, Needed(fs, force))),
                                                     Firsts(Filter(pairs, Present(fs, force))))
    decreases |pairs|
  {
    if |pairs| > 0 {
      var init, last := pairs[..|pairs| - 1], pairs[|pairs| - 1];
      PartitionPairsSpec(init, fs, force);
      var need, keep := Filter(init, Needed(fs, force)), Filter(init, Present(fs, force));
      if NeedsDownload(fs, force, last.0) {
        assert Filter(pairs, Needed(fs, force)) == need + [last];
        assert Filter(pairs, Present(fs, force)) == keep;
        assert Firsts(need + [last]) == Firsts(need) + [last.0];
        assert Seconds(need + [last]) == Seconds(need) + [last.1];
      } else {
        assert Filter(pairs, Needed(fs, force)) == need;
        assert Filter(pairs, Present(fs, force)) == keep + [last];
        assert Firsts(keep + [last]) == Firsts(keep) + [last.0];
      }
    }
  }

  /** Splitting pairs by the download test loses and duplicates no path. */
  lemma {:induction false} PartitionCovers(pairs: seq<(Path, string)>, fs: FileSystem, force: bool)
    ensures multiset(Firsts(Filter(pairs, Needed(fs, force)))) + multiset(Firsts(Filter(pairs, Present(fs, force))))
      == multiset(Firsts(pairs))
    decreases |pairs|
  {
    if |pairs| > 0 {
      var init, last := pairs[..|pairs| - 1], pairs[|pairs| - 1];
      PartitionCovers(init, fs, force);
      var need, keep := Firsts(Filter(init, Needed(fs, force))), Firsts(Filter(init, Present(fs, force)));
      assert Firsts(pairs) == Firsts(init) + [last.0];
      assert multiset(Firsts(pairs)) == multiset(Firsts(init)) + multiset{last.0};
      PartitionPairsSpec(init, fs, force);
      PartitionPairsSpec(pairs, fs, force);
      if NeedsDownload(fs, force, last.0) {
        assert Firsts(Filter(pairs, Needed(fs, force))) == need + [last.0];
        assert Firsts(Filter(pairs, Present(fs, force))) == keep;
      } else {
        assert Firsts(Filter(pairs, Needed(fs, force))) == need;
        assert Firsts(Filter(pairs, Present(fs, force))) == keep + [last.0];
      }
    }
  }

  /** The paths and URLs to download stay aligned: zipped again they are the pairs the
      download test selects, in input order. */
  lemma PartitionDownloadsAligned(paths: seq<Path>, urls: seq<string>, fs: FileSystem, force: bool)
    ensures var plan := PartitionDownloads(paths, urls, fs, force);
      Zip(plan.dlPaths, plan.dlUrls) == Filter(Zip(paths, urls), Needed(fs, force))
  {
    PartitionPairsSpec(Zip(paths, urls), fs, force);
    ZipOfUnzip(Filter(Zip(paths, urls), Needed(fs, force)));
  }

  /** The partition of `download_dump`: the paths to download and their URLs stay
      aligned pair by pair, in input order, and are exactly the pairs whose file is
      missing (or all pairs when forced); the skipped paths are exactly the others;
      together they are all the zipped paths, each once; a forced run skips nothing. */
  lemma PartitionDownloadsSpec(paths: seq<Path>, urls: seq<string>, fs: FileSystem, force: bool)
    ensures var plan := PartitionDownloads(paths, urls, fs, force);
      Zip(plan.dlPaths, plan.dlUrls) == Filter(Zip(paths, urls), Needed(fs, force))
    ensures var plan := PartitionDownloads(paths, urls, fs, force);
      plan.skipPaths == Firsts(Filter(Zip(paths, urls), Present(fs, force)))
    ensures var plan := PartitionDownloads(paths, urls, fs, force);
      (forall fp :: fp in plan.dlPaths ==> force || fp !in fs)
      && (forall fp :: fp in plan.skipPaths ==> !force && fp in fs)
    ensures var plan := PartitionDownloads(paths, urls, fs, force);
      multiset(plan.dlPaths) + multiset(plan.skipPaths) == multiset(Firsts(Zip(paths, urls)))
    ensures force ==> PartitionDownloads(paths, urls, fs, force).skipPaths == []
  {
    var pairs := Zip(paths, urls);
    PartitionDownloadsAligned(paths, urls, fs, force);
    PartitionPairsSpec(pairs, fs, force);
    SelectedPaths(pairs, fs, force);
    PartitionCovers(pairs, fs, force);
    if force {
      FilterNone(pairs, Present(fs, force));
    }
  }

  /** Every path the download test selects fails the existence test, and every path it
      leaves out passes it. */
  lemma SelectedPaths(pairs: seq<(Path, string)>, fs: FileSystem, force: bool)
    ensures forall fp :: fp in Firsts(Filter(pairs, Needed(fs, force))) ==> force || fp !in fs
    ensures forall fp :: fp in Firsts(Filter(pairs, Present(fs, force))) ==> !force && fp in fs
  {
    var need, keep := Filter(pairs, Needed(fs, force)), Filter(pairs, Present(fs, force));
    FilterMembers(pairs, Needed(fs, force));
    FilterMembers(pairs, Present(fs, force));
    forall fp | fp in Firsts(need)
      ensures force || fp !in fs
    {
      var i :| 0 <= i < |need| && need[i].0 == fp;
      assert need[i] in need;
    }
    forall fp | fp in Firsts(keep)
      ensures !force && fp in fs
    {
      var i :| 0 <= i < |keep| && keep[i].0 == fp;
      assert keep[i] in keep;
    }
  }

  // ------------------------------------------------------------ fetching

  /** The network: the contents served at a URL, or `None` when the download fails. */
  type Fetcher = string -> Option<seq<Line>>

  /** Whether a path exists, and with which contents. */
  function Content(fs: FileSystem, p: Path): Option<seq<Line>>
  {
    if p in fs then Some(fs[p]) else None
  }

  /** One iteration of the download loop, which repeats the test against the current
      state; a failed download leaves the path as it was. */
  function FetchOne(fs: FileSystem, pair: (Path, string), force: bool, fetch: Fetcher): FileSystem
  {
    var (fp, url) := pair;
    if NeedsDownload(fs, force, fp) && fetch(url).Some? then fs[fp := fetch(url).value] else fs
  }

  /** The download loop over `zip(dl_paths, dl_urls)`. */
  function FetchAll(fs: FileSystem, pairs: seq<(Path, string)>, force: bool, fetch: Fetcher): FileSystem
    decreases |pairs|
  {
    if |pairs| == 0 then fs
    else FetchAll(FetchOne(fs, pairs[0], force, fetch), pairs[1..], force, fetch)
  }

  /** What a path holds after its archive was considered once: the fetched contents if
      it needed a download and the download succeeded, its old state otherwise. */
  function Downloaded(fs: FileSystem, pair: (Path, string), force: bool, fetch: Fetcher): Option<seq<Line>>
  {
    if NeedsDownload(fs, force, pair.0) && fetch(pair.1).Some? then fetch(pair.1) else Content(fs, pair.0)
  }

  lemma FetchOneGrows(fs: FileSystem, pair: (Path, string), force: bool, fetch: Fetcher)
    ensures forall p :: p in fs ==> p in FetchOne(fs, pair, force, fetch)
  {
  }

  /** Downloading never removes a file. */
  lemma {:induction false} FetchAllGrows(fs: FileSystem, pairs: seq<(Path, string)>, force: bool, fetch: Fetcher)
    ensures forall p :: p in fs ==> p in FetchAll(fs, pairs, force, fetch)
    decreases |pairs|
  {
    if |pairs| > 0 {
      FetchAllGrows(FetchOne(fs, pairs[0], force, fetch), pairs[1..], force, fetch);
    }
  }

  /** The repeated test in the download loop changes nothing: pairs the partition skipped
      would be skipped by the loop as well, since files only ever appear. */
  lemma {:induction false} SecondCheckIsRedundant(fs0: FileSystem, fs: FileSystem, pairs: seq<(Path, string)>,
                                                  force: bool, fetch: Fetcher)
    requires forall p :: p in fs0 ==> p in fs
    ensures FetchAll(fs, Filter(pairs, Needed(fs0, force)), force, fetch) == FetchAll(fs, pairs, force, fetch)
    decreases |pairs|
  {
    if |pairs| > 0 {
      var head, rest := pairs[0], pairs[1..];
      assert pairs == [head] + rest;
      FilterConcat([head], rest, Needed(fs0, force));
      assert Filter([head], Needed(fs0, force)) == if NeedsDownload(fs0, force, head.0) then [head] else [];
      var fs1 := FetchOne(fs, head, force, fetch);
      SecondCheckIsRedundant(fs0, fs1, rest, force, fetch);
      FetchOneGrows(fs, head, force, fetch);
      if NeedsDownload(fs0, force, head.0) {
        assert ([head] + Filter(rest, Needed(fs0, force)))[1..] == Filter(rest, Needed(fs0, force));
      } else {
        assert fs1 == fs;
        assert Filter(pairs, Needed(fs0, force)) == Filter(rest, Needed(fs0, force));
        SecondCheckIsRedundant(fs0, fs, rest, force, fetch);
      }
    }
  }

  /** With distinct paths, each path ends up as its own single download decides, and
      every other path keeps its state. */
  lemma {:induction false} FetchAllSpec(fs: FileSystem, pairs: seq<(Path, string)>, force: bool, fetch: Fetcher)
    requires forall i, j :: 0 <= i < j < |pairs| ==> pairs[i].0 != pairs[j].0
    ensures forall i :: 0 <= i < |pairs| ==>
      Content(FetchAll(fs, pairs, force, fetch), pairs[i].0) == Downloaded(fs, pairs[i], force, fetch)
    ensures forall p :: p !in Firsts(pairs) ==> Content(FetchAll(fs, pairs, force, fetch), p) == Content(fs, p)
    decreases |pairs|
  {
    if |pairs| > 0 {
      var head, rest := pairs[0], pairs[1..];
      var fs1 := FetchOne(fs, head, force, fetch);
      FetchAllSpec(fs1, rest, force, fetch);
      assert Firsts(pairs) == [head.0] + Firsts(rest);
      assert head.0 !in Firsts(rest);
      forall i | 1 <= i < |pairs|
        ensures Content(FetchAll(fs, pairs, force, fetch), pairs[i].0) == Downloaded(fs, pairs[i], force, fetch)
      {
        assert rest[i - 1] == pairs[i];
      }
    }
  }

  /** `download_dump(year, month, force)`: plan against the state before the run, then
      fetch the planned archives. */
  function DownloadDump(fs: FileSystem, dataDir: Path, year: int, month: int, force: bool, fetch: Fetcher): FileSystem
  {
    var urls := DumpUrls(year, month);
    var plan := PartitionDownloads(PathsForUrls(urls, dataDir), urls, fs, force);
    FetchAll(fs, Zip(plan.dlPaths, plan.dlUrls), force, fetch)
  }

  /** The input archives of a month are distinct paths. */
  lemma InputFilesDistinct(dataDir: Path, year: int, month: int)
    ensures forall i, j :: 0 <= i < j < |Extraction.InputFiles(dataDir, year, month)| ==>
      Extraction.InputFiles(dataDir, year, month)[i] != Extraction.InputFiles(dataDir, year, month)[j]
  {
    Extraction.InputFilesSpec(dataDir, year, month);
    ArchiveNamesDistinct(year, month);
    var files := Extraction.InputFiles(dataDir, year, month);
    forall i, j | 0 <= i < j < |files|
      ensures files[i] != files[j]
    {
      assert files[i][|dataDir|] == ArchiveNames(year, month)[i];
    }
  }

  /** The month's download loop runs over all archive paths paired with their URLs. */
  lemma DownloadDumpIsFetchAll(fs: FileSystem, dataDir: Path, year: int, month: int, force: bool, fetch: Fetcher)
    ensures var files, urls := Extraction.InputFiles(dataDir, year, month), DumpUrls(year, month);
      && |files| == |urls|
      && Firsts(Zip(files, urls)) == files
      && DownloadDump(fs, dataDir, year, month, force, fetch) == FetchAll(fs, Zip(files, urls), force, fetch)
  {
    var urls := DumpUrls(year, month);
    var files := Extraction.InputFiles(dataDir, year, month);
    PathsForDumpUrls(dataDir, year, month);
    var pairs := Zip(files, urls);
    PartitionDownloadsAligned(files, urls, fs, force);
    SecondCheckIsRedundant(fs, fs, pairs, force, fetch);
    FirstsOfZip(files, urls);
  }

  /** One month's download: each archive of the month is downloaded from its URL when it
      is missing or `force` is set, and the download succeeds; otherwise it keeps its
      state; no other path changes, and without `force` no existing file changes. */
  lemma DownloadDumpSpec(fs: FileSystem, dataDir: Path, year: int, month: int, force: bool, fetch: Fetcher)
    ensures var files, urls := Extraction.InputFiles(dataDir, year, month), DumpUrls(year, month);
      |files| == |urls|
      && forall i :: 0 <= i < |files| ==>
        Content(DownloadDump(fs, dataDir, year, month, force, fetch), files[i])
        == Downloaded(fs, (files[i], urls[i]), force, fetch)
    ensures forall p :: p !in Extraction.InputFiles(dataDir, year, month) ==>
      Content(DownloadDump(fs, dataDir, year, month, force, fetch), p) == Content(fs, p)
    ensures !force ==> forall p :: p in fs ==>
      Content(DownloadDump(fs, dataDir, year, month, force, fetch), p) == Content(fs, p)
  {
    var urls := DumpUrls(year, month);
    var files := Extraction.InputFiles(dataDir, year, month);
    DownloadDumpIsFetchAll(fs, dataDir, year, month, force, fetch);
    InputFilesDistinct(dataDir, year, month);
    FetchZipSpec(fs, files, urls, force, fetch);
  }

  /** The download loop over distinct paths zipped with their URLs: each path ends up as
      its own download decides, no other path changes, and without `force` no existing
      file changes. */
  lemma FetchZipSpec(fs: FileSystem, files: seq<Path>, urls: seq<string>, force: bool, fetch: Fetcher)
    requires |files| == |urls|
    requires forall i, j :: 0 <= i < j < |files| ==> files[i] != files[j]
    ensures forall i :: 0 <= i < |files| ==>
      Content(FetchAll(fs, Zip(files, urls), force, fetch), files[i]) == Downloaded(fs, (files[i], urls[i]), force, fetch)
    ensures forall p :: p !in files ==> Content(FetchAll(fs, Zip(files, urls), force, fetch), p) == Content(fs, p)
    ensures !force ==> forall p :: p in fs ==> Content(FetchAll(fs, Zip(files, urls), force, fetch), p) == Content(fs, p)
  {
    var pairs := Zip(files, urls);
    FirstsOfZip(files, urls);
    FetchAllSpec(fs, pairs, force, fetch);
    forall i | 0 <= i < |files|
      ensures Content(FetchAll(fs, pairs, force, fetch), files[i]) == Downloaded(fs, (files[i], urls[i]), force, fetch)
    {
      assert pairs[i] == (files[i], urls[i]);
    }
    if !force {
      forall p | p in fs
        ensures Content(FetchAll(fs, pairs, force, fetch), p) == Content(fs, p)
      {
        if p in files {
          var i :| 0 <= i < |files| && files[i] == p;
          assert pairs[i] == (files[i], urls[i]);
        }
      }
    }
  }

  // ------------------------------------------------------------ a range of years

  function DownloadMonths(fs: FileSystem, dataDir: Path, periods: seq<(int, int)>, force: bool, fetch: Fetcher): FileSystem
    decreases |periods|
  {
    if |periods| == 0 then fs
    else DownloadMonths(DownloadDump(fs, dataDir, periods[0].0, periods[0].1, force, fetch), dataDir, periods[1..], force, fetch)
  }

  /** `batch_download_dumps(from_year, to_year, force)`. */
  function BatchDownload(fs: FileSystem, dataDir: Path, fromYear: int, toYear: int, force: bool, fetch: Fetcher): FileSystem
  {
    DownloadMonths(fs, dataDir, BatchPeriods(fromYear, toYear), force, fetch)
  }

  /** Only archives of the visited months can change, and without `force` no existing
      file changes at all. */
  lemma {:induction false} DownloadMonthsFrame(fs: FileSystem, dataDir: Path, periods: seq<(int, int)>, force: bool, fetch: Fetcher)
    ensures forall p :: (forall i :: 0 <= i < |periods| ==> p !in Extraction.InputFiles(dataDir, periods[i].0, periods[i].1)) ==>
      Content(DownloadMonths(fs, dataDir, periods, force, fetch), p) == Content(fs, p)
    ensures !force ==> forall p :: p in fs ==> Content(DownloadMonths(fs, dataDir, periods, force, fetch), p) == Content(fs, p)
    decreases |periods|
  {
    if |periods| > 0 {
      var fs1 := DownloadDump(fs, dataDir, periods[0].0, periods[0].1, force, fetch);
      DownloadDumpSpec(fs, dataDir, periods[0].0, periods[0].1, force, fetch);
      DownloadMonthsFrame(fs1, dataDir, periods[1..], force, fetch);
      forall p | (forall i :: 0 <= i < |periods| ==> p !in Extraction.InputFiles(dataDir, periods[i].0, periods[i].1))
        ensures Content(DownloadMonths(fs, dataDir, periods, force, fetch), p) == Content(fs, p)
      {
        assert forall i :: 0 <= i < |periods[1..]| ==> periods[1..][i] == periods[i + 1];
      }
    }
  }

  /** A batch download changes only archives of the months in the year range, and without
      `force` it never replaces an existing file. */
  lemma BatchDownloadFrame(fs: FileSystem, dataDir: Path, fromYear: int, toYear: int, force: bool, fetch: Fetcher)
    ensures forall p :: (forall q :: q in BatchPeriods(fromYear, toYear) ==> p !in Extraction.InputFiles(dataDir, q.0, q.1)) ==>
      Content(BatchDownload(fs, dataDir, fromYear, toYear, force, fetch), p) == Content(fs, p)
    ensures !force ==> forall p :: p in fs ==>
      Content(BatchDownload(fs, dataDir, fromYear, toYear, force, fetch), p) == Content(fs, p)
  {
    var periods := BatchPeriods(fromYear, toYear);
    DownloadMonthsFrame(fs, dataDir, periods, force, fetch);
    assert forall i :: 0 <= i < |periods| ==> periods[i] in periods;
  }
}
