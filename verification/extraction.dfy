/** extraction.py: copying the comments of one subreddit out of the monthly or daily
    archives of a month into one monthly file, and doing so for a range of years. */
module Extraction {
  import opened Wrappers
  import opened Text
  import opened Calendar
  import opened Environment
  import opened Seqs
  import opened Helpers
  import opened Archives

  /** `data_dir/{s}/{s}_{year}-{MM}` with `s` the lower-cased subreddit: the file one
      month's comments are extracted to. */
  function OutputPath(dataDir: Path, subreddit: string, year: int, month: int): Path
  {
    var s := AsciiLower(subreddit);
    Join(Join(dataDir, s), s + "_" + MonthStamp(year, month))
  }

  /** The archives the extraction of a month tries to read, in order: `data_dir / name`
      for every archive name of the month. */
  function InputFiles(dataDir: Path, year: int, month: int): seq<Path>
  {
    var names := ArchiveNames(year, month);
    seq(|names|, i requires 0 <= i < |names| => Join(dataDir, names[i]))
  }

  /** Every input archive sits directly in the data folder under its archive name. */
  lemma InputFilesSpec(dataDir: Path, year: int, month: int)
    ensures |InputFiles(dataDir, year, month)| == |ArchiveNames(year, month)|
    ensures forall i :: 0 <= i < |InputFiles(dataDir, year, month)| ==>
      InputFiles(dataDir, year, month)[i] == dataDir + [ArchiveNames(year, month)[i]]
  {
    ArchiveNamesPrefix(year, month);
  }

  /** The extraction never reads its own output, nor the output of any other month:
      archive names start with `RC_`, and an output path either lies one folder deeper
      or, for an empty subreddit name, is named `_` followed by the month. */
  lemma OutputIsNotAnInput(dataDir: Path, subreddit: string, year: int, month: int, y: int, m: int)
    ensures OutputPath(dataDir, subreddit, year, month) !in InputFiles(dataDir, y, m)
  {
    var out := OutputPath(dataDir, subreddit, year, month);
    var s := AsciiLower(subreddit);
    var files := InputFiles(dataDir, y, m);
    InputFilesSpec(dataDir, y, m);
    ArchiveNamesPrefix(y, m);
    if s == "" {
      assert s + "_" + MonthStamp(year, month) == "_" + MonthStamp(year, month);
      assert out == dataDir + ["_" + MonthStamp(year, month)];
      forall i | 0 <= i < |files|
        ensures files[i] != out
      {
        assert files[i][|dataDir|][0] == 'R';
        assert out[|dataDir|][0] == '_';
      }
    } else {
      assert |out| == |dataDir| + 2;
    }
  }

  // ------------------------------------------------------------ one archive

  /** What reading one archive leaves: the lines written to the output, and the error
      that stopped the reading, if any. */
  datatype Scan = Scan(kept: seq<Line>, failure: Option<Error>)

  /** The line filter the extraction applies: the lines `is_relevant_ln` answers `True` for. */
  function RelevantTo(parse: Parser, subreddit: string): Line -> bool
  {
    ln => Relevant(parse, ln, subreddit)
  }

  /** The inner loop over an archive: writes each relevant line unchanged and in order,
      and stops at the first line `is_relevant_ln` raises on. */
  function FilterLines(parse: Parser, lines: seq<Line>, subreddit: string): Scan
    decreases |lines|
  {
    if |lines| == 0 then Scan([], None)
    else
      match IsRelevantLn(parse, lines[0], subreddit)
      case Failure(e) => Scan([], Some(e))
      case Success(keep) =>
        var rest := FilterLines(parse, lines[1..], subreddit);
        Scan((if keep then [lines[0]] else []) + rest.kept, rest.failure)
  }

  /** Reading an archive fails exactly when one of its lines is malformed or lacks a
      subreddit; otherwise the output holds exactly the relevant lines, in input order. */
  lemma {:induction false} FilterLinesSpec(parse: Parser, lines: seq<Line>, subreddit: string)
    ensures FilterLines(parse, lines, subreddit).failure.None? <==>
      forall i :: 0 <= i < |lines| ==> IsRelevantLn(parse, lines[i], subreddit).Success?
    ensures FilterLines(parse, lines, subreddit).failure.None? ==>
      FilterLines(parse, lines, subreddit).kept == Filter(lines, RelevantTo(parse, subreddit))
    decreases |lines|
  {
    if |lines| > 0 {
      FilterLinesSpec(parse, lines[1..], subreddit);
      assert lines == [lines[0]] + lines[1..];
      FilterConcat([lines[0]], lines[1..], RelevantTo(parse, subreddit));
      assert Filter([lines[0]], RelevantTo(parse, subreddit))
        == (if Relevant(parse, lines[0], subreddit) then [lines[0]] else []);
      if IsRelevantLn(parse, lines[0], subreddit).Success? {
        forall i | 0 <= i < |lines| - 1
          ensures lines[1..][i] == lines[i + 1]
        {
        }
      }
    }
  }

  /** When reading stops early, it stops at the first failing line `k`, and the output
      holds the relevant lines before it. */
  lemma {:induction false} FilterLinesStops(parse: Parser, lines: seq<Line>, subreddit: string) returns (k: nat)
    requires FilterLines(parse, lines, subreddit).failure.Some?
    ensures k < |lines| && IsRelevantLn(parse, lines[k], subreddit).Failure?
    ensures FilterLines(parse, lines, subreddit).failure == Some(IsRelevantLn(parse, lines[k], subreddit).error)
    ensures forall i :: 0 <= i < k ==> IsRelevantLn(parse, lines[i], subreddit).Success?
    ensures FilterLines(parse, lines, subreddit).kept == Filter(lines[..k], RelevantTo(parse, subreddit))
    decreases |lines|
  {
    if IsRelevantLn(parse, lines[0], subreddit).Failure? {
      k := 0;
    } else {
      var j := FilterLinesStops(parse, lines[1..], subreddit);
      k := j + 1;
      assert lines[..k] == [lines[0]] + lines[1..][..j];
      FilterConcat([lines[0]], lines[1..][..j], RelevantTo(parse, subreddit));
      assert Filter([lines[0]], RelevantTo(parse, subreddit))
        == (if Relevant(parse, lines[0], subreddit) then [lines[0]] else []);
    }
  }

  // ------------------------------------------------------------ one month

  /** The state an invocation leaves behind, and the exception that escaped it, if any. */
  datatype Run = Run(fs: FileSystem, failure: Option<Error>)

  /** The loop over the input archives: each archive present re-opens the output in
      mode "w", so it replaces what earlier archives wrote; missing archives are skipped;
      an error stops the loop with the output as written so far. */
  function ExtractInputs(parse: Parser, fs: FileSystem, files: seq<Path>, out: Path, subreddit: string): Run
    decreases |files|
  {
    if |files| == 0 then Run(fs, None)
    else if files[0] !in fs then ExtractInputs(parse, fs, files[1..], out, subreddit)
    else
      var scan := FilterLines(parse, fs[files[0]], subreddit);
      var written := fs[out := scan.kept];
      if scan.failure.Some? then Run(written, scan.failure)
      else ExtractInputs(parse, written, files[1..], out, subreddit)
  }

  /** The last of `files` that exists, if any. */
  function LastPresent(fs: FileSystem, files: seq<Path>): (r: Option<Path>)
    ensures r.Some? ==> r.value in files && r.value in fs
    ensures r.Some? ==>
      exists k :: 0 <= k < |files| && files[k] == r.value && forall j :: k < j < |files| ==> files[j] !in fs
    decreases |files|
  {
    if |files| == 0 then None
    else if files[|files| - 1] in fs then Some(files[|files| - 1])
    else LastPresent(fs, files[..|files| - 1])
  }

  lemma {:induction false} LastPresentSpec(fs: FileSystem, files: seq<Path>)
    ensures LastPresent(fs, files).None? <==> forall i :: 0 <= i < |files| ==> files[i] !in fs
    decreases |files|
  {
    if |files| > 0 {
      LastPresentSpec(fs, files[..|files| - 1]);
    }
  }

  lemma {:induction false} LastPresentCons(fs: FileSystem, f: Path, rest: seq<Path>)
    ensures LastPresent(fs, [f] + rest) ==
      if LastPresent(fs, rest).Some? then LastPresent(fs, rest)
      else if f in fs then Some(f) else None
    decreases |rest|
  {
    if |rest| > 0 {
      assert ([f] + rest)[..|[f] + rest| - 1] == [f] + rest[..|rest| - 1];
      LastPresentCons(fs, f, rest[..|rest| - 1]);
    } else {
      assert [f] + rest == [f];
    }
  }

  lemma {:induction false} LastPresentFrame(fs1: FileSystem, fs2: FileSystem, files: seq<Path>)
    requires forall i :: 0 <= i < |files| ==> (files[i] in fs1 <==> files[i] in fs2)
    ensures LastPresent(fs1, files) == LastPresent(fs2, files)
    decreases |files|
  {
    if |files| > 0 {
      LastPresentFrame(fs1, fs2, files[..|files| - 1]);
    }
  }

  /** The loop writes the output and nothing else; the output exists afterwards exactly
      when it existed before or some input archive is present. */
  lemma {:induction false} ExtractInputsFrame(parse: Parser, fs: FileSystem, files: seq<Path>, out: Path, subreddit: string)
    requires out !in files
    ensures forall p :: p != out ==>
      (p in ExtractInputs(parse, fs, files, out, subreddit).fs <==> p in fs)
    ensures forall p :: p != out && p in fs ==> ExtractInputs(parse, fs, files, out, subreddit).fs[p] == fs[p]
    ensures out in ExtractInputs(parse, fs, files, out, subreddit).fs <==> out in fs || LastPresent(fs, files).Some?
    decreases |files|
  {
    LastPresentSpec(fs, files);
    if |files| > 0 {
      var rest := files[1..];
      assert files == [files[0]] + rest;
      LastPresentCons(fs, files[0], rest);
      if files[0] !in fs {
        ExtractInputsFrame(parse, fs, rest, out, subreddit);
      } else {
        var scan := FilterLines(parse, fs[files[0]], subreddit);
        var written := fs[out := scan.kept];
        if scan.failure.None? {
          ExtractInputsFrame(parse, written, rest, out, subreddit);
          LastPresentSpec(written, rest);
        }
      }
    }
  }

  /** When the loop completes, the output holds the relevant lines of the LAST present
      archive only; with no archive present, nothing changes. */
  lemma {:induction false} ExtractInputsLastWins(parse: Parser, fs: FileSystem, files: seq<Path>, out: Path, subreddit: string)
    requires out !in files
    requires ExtractInputs(parse, fs, files, out, subreddit).failure.None?
    ensures LastPresent(fs, files).None? ==> ExtractInputs(parse, fs, files, out, subreddit).fs == fs
    ensures LastPresent(fs, files).Some? ==>
      ExtractInputs(parse, fs, files, out, subreddit).fs
      == fs[out := Filter(fs[LastPresent(fs, files).value], RelevantTo(parse, subreddit))]
    decreases |files|
  {
    LastPresentSpec(fs, files);
    if |files| > 0 {
      var rest := files[1..];
      assert files == [files[0]] + rest;
      LastPresentCons(fs, files[0], rest);
      if files[0] !in fs {
        ExtractInputsLastWins(parse, fs, rest, out, subreddit);
      } else {
        var scan := FilterLines(parse, fs[files[0]], subreddit);
        var written := fs[out := scan.kept];
        FilterLinesSpec(parse, fs[files[0]], subreddit);
        ExtractInputsLastWins(parse, written, rest, out, subreddit);
        LastPresentFrame(fs, written, rest);
        LastPresentSpec(fs, rest);
      }
    }
  }

  /** When the loop stops on an error, it stopped in the first present archive `files[j]`
      holding a bad line; the output holds that archive's relevant lines before the bad one,
      and nothing else changed. */
  lemma {:induction false} ExtractInputsFailure(parse: Parser, fs: FileSystem, files: seq<Path>, out: Path, subreddit: string)
    returns (j: nat)
    requires out !in files
    requires ExtractInputs(parse, fs, files, out, subreddit).failure.Some?
    ensures j < |files| && files[j] in fs
    ensures forall i :: 0 <= i < j && files[i] in fs ==> FilterLines(parse, fs[files[i]], subreddit).failure.None?
    ensures ExtractInputs(parse, fs, files, out, subreddit)
      == Run(fs[out := FilterLines(parse, fs[files[j]], subreddit).kept], FilterLines(parse, fs[files[j]], subreddit).failure)
    decreases |files|
  {
    var rest := files[1..];
    if files[0] !in fs {
      var k := ExtractInputsFailure(parse, fs, rest, out, subreddit);
      j := k + 1;
    } else {
      var scan := FilterLines(parse, fs[files[0]], subreddit);
      var written := fs[out := scan.kept];
      if scan.failure.Some? {
        j := 0;
      } else {
        var k := ExtractInputsFailure(parse, written, rest, out, subreddit);
        j := k + 1;
        assert written[files[j]] == fs[files[j]];
        forall i | 0 <= i < j && files[i] in fs
          ensures FilterLines(parse, fs[files[i]], subreddit).failure.None?
        {
          if i > 0 {
            assert rest[i - 1] == files[i];
          }
        }
      }
    }
  }

  /** `extract_from_dump(year, month, subreddit, force)`: skipped when the output exists
      and `force` is not set; otherwise the input loop, on the lower-cased subreddit. */
  function ExtractFromDump(parse: Parser, fs: FileSystem, dataDir: Path, year: int, month: int,
                           subreddit: string, force: bool): Run
  {
    var out := OutputPath(dataDir, subreddit, year, month);
    if !force && out in fs then Run(fs, None)
    else ExtractInputs(parse, fs, InputFiles(dataDir, year, month), out, AsciiLower(subreddit))
  }

  /** The contract of one month's extraction:
      - an existing output without `force` is left alone and nothing else happens;
      - otherwise only the output is written; it exists afterwards if it did before or
        any input archive is present;
      - on completion it holds the relevant lines of the last present archive (and is
        untouched when no archive is present);
      - without `force`, no existing file is ever changed. */
  lemma ExtractFromDumpSpec(parse: Parser, fs: FileSystem, dataDir: Path, year: int, month: int,
                            subreddit: string, force: bool)
    ensures var out := OutputPath(dataDir, subreddit, year, month);
      !force && out in fs ==> ExtractFromDump(parse, fs, dataDir, year, month, subreddit, force) == Run(fs, None)
    ensures var r := ExtractFromDump(parse, fs, dataDir, year, month, subreddit, force);
      var out := OutputPath(dataDir, subreddit, year, month);
      forall p :: p != out ==> (p in r.fs <==> p in fs) && (p in fs ==> r.fs[p] == fs[p])
    ensures var r := ExtractFromDump(parse, fs, dataDir, year, month, subreddit, force);
      var out := OutputPath(dataDir, subreddit, year, month);
      out in r.fs <==> out in fs || LastPresent(fs, InputFiles(dataDir, year, month)).Some?
    ensures var r := ExtractFromDump(parse, fs, dataDir, year, month, subreddit, force);
      var out := OutputPath(dataDir, subreddit, year, month);
      var last := LastPresent(fs, InputFiles(dataDir, year, month));
      (force || out !in fs) && r.failure.None? ==>
        r.fs == (if last.Some? then fs[out := Filter(fs[last.value], RelevantTo(parse, AsciiLower(subreddit)))] else fs)
    ensures var r := ExtractFromDump(parse, fs, dataDir, year, month, subreddit, force);
      !force ==> forall p :: p in fs ==> p in r.fs && r.fs[p] == fs[p]
  {
    var out := OutputPath(dataDir, subreddit, year, month);
    var files := InputFiles(dataDir, year, month);
    OutputIsNotAnInput(dataDir, subreddit, year, month, year, month);
    if force || out !in fs {
      ExtractInputsFrame(parse, fs, files, out, AsciiLower(subreddit));
      if ExtractFromDump(parse, fs, dataDir, year, month, subreddit, force).failure.None? {
        ExtractInputsLastWins(parse, fs, files, out, AsciiLower(subreddit));
      }
    }
  }

  /** The frame part of `ExtractFromDumpSpec`: only the output may change, and without
      `force` no existing file does. */
  lemma ExtractFromDumpFrame(parse: Parser, fs: FileSystem, dataDir: Path, year: int, month: int,
                             subreddit: string, force: bool)
    ensures var r := ExtractFromDump(parse, fs, dataDir, year, month, subreddit, force);
      var out := OutputPath(dataDir, subreddit, year, month);
      forall p :: p != out ==> (p in r.fs <==> p in fs) && (p in fs ==> r.fs[p] == fs[p])
    ensures var r := ExtractFromDump(parse, fs, dataDir, year, month, subreddit, force);
      !force ==> forall p :: p in fs ==> p in r.fs && r.fs[p] == fs[p]
  {
    ExtractFromDumpSpec(parse, fs, dataDir, year, month, subreddit, force);
  }

  // ------------------------------------------------------------ a range of years

  /** Extraction month after month, stopping at the first exception. */
  function ExtractMonths(parse: Parser, fs: FileSystem, dataDir: Path, periods: seq<(int, int)>,
                         subreddit: string, force: bool): Run
    decreases |periods|
  {
    if |periods| == 0 then Run(fs, None)
    else
      var r := ExtractFromDump(parse, fs, dataDir, periods[0].0, periods[0].1, subreddit, force);
      if r.failure.Some? then r
      else ExtractMonths(parse, r.fs, dataDir, periods[1..], subreddit, force)
  }

  /** `batch_extract_from_dumps(from_year, to_year, subreddit, force)`. */
  function BatchExtract(parse: Parser, fs: FileSystem, dataDir: Path, fromYear: int, toYear: int,
                        subreddit: string, force: bool): Run
  {
    ExtractMonths(parse, fs, dataDir, BatchPeriods(fromYear, toYear), subreddit, force)
  }

  /** The output files of the visited months, in visiting order. */
  function Outputs(dataDir: Path, subreddit: string, periods: seq<(int, int)>): (r: seq<Path>)
    ensures |r| == |periods|
    ensures forall i :: 0 <= i < |periods| ==> r[i] == OutputPath(dataDir, subreddit, periods[i].0, periods[i].1)
    decreases |periods|
  {
    if |periods| == 0 then []
    else [OutputPath(dataDir, subreddit, periods[0].0, periods[0].1)] + Outputs(dataDir, subreddit, periods[1..])
  }

  /** A path that is not the output of a visited month keeps its state, and without
      `force` no existing file changes at all. */
  lemma {:induction false} ExtractMonthsFrame(parse: Parser, fs: FileSystem, dataDir: Path, periods: seq<(int, int)>,
                                              subreddit: string, force: bool)
    ensures var r := ExtractMonths(parse, fs, dataDir, periods, subreddit, force);
      forall p :: p !in Outputs(dataDir, subreddit, periods) ==>
        (p in r.fs <==> p in fs) && (p in fs ==> r.fs[p] == fs[p])
    ensures var r := ExtractMonths(parse, fs, dataDir, periods, subreddit, force);
      !force ==> forall p :: p in fs ==> p in r.fs && r.fs[p] == fs[p]
    decreases |periods|
  {
    if |periods| > 0 {
      var (y, m) := periods[0];
      ExtractFromDumpFrame(parse, fs, dataDir, y, m, subreddit, force);
      var r := ExtractFromDump(parse, fs, dataDir, y, m, subreddit, force);
      if r.failure.None? {
        ExtractMonthsFrame(parse, r.fs, dataDir, periods[1..], subreddit, force);
        var last := ExtractMonths(parse, r.fs, dataDir, periods[1..], subreddit, force).fs;
        FrameCompose(fs, r.fs, last, OutputPath(dataDir, subreddit, y, m), Outputs(dataDir, subreddit, periods[1..]), force);
      }
    }
  }

  /** Two runs in a row, the first writing only `out` and the second only `outs`, write
      only `[out] + outs`; and if neither changes an existing file, neither does the pair. */
  lemma FrameCompose(fs: FileSystem, mid: FileSystem, last: FileSystem, out: Path, outs: seq<Path>, force: bool)
    requires forall p :: p != out ==> (p in mid <==> p in fs) && (p in fs ==> mid[p] == fs[p])
    requires !force ==> forall p :: p in fs ==> p in mid && mid[p] == fs[p]
    requires forall p :: p !in outs ==> (p in last <==> p in mid) && (p in mid ==> last[p] == mid[p])
    requires !force ==> forall p :: p in mid ==> p in last && last[p] == mid[p]
    ensures forall p :: p !in [out] + outs ==> (p in last <==> p in fs) && (p in fs ==> last[p] == fs[p])
    ensures !force ==> forall p :: p in fs ==> p in last && last[p] == fs[p]
  {
  }

  /** The batch writes only the outputs of the months it visits, and without `force`
      it never overwrites an existing file. */
  lemma BatchExtractFrame(parse: Parser, fs: FileSystem, dataDir: Path, fromYear: int, toYear: int,
                          subreddit: string, force: bool)
    ensures var r := BatchExtract(parse, fs, dataDir, fromYear, toYear, subreddit, force);
      forall p :: p !in Outputs(dataDir, subreddit, BatchPeriods(fromYear, toYear)) ==>
        (p in r.fs <==> p in fs) && (p in fs ==> r.fs[p] == fs[p])
    ensures var r := BatchExtract(parse, fs, dataDir, fromYear, toYear, subreddit, force);
      !force ==> forall p :: p in fs ==> p in r.fs && r.fs[p] == fs[p]
  {
    ExtractMonthsFrame(parse, fs, dataDir, BatchPeriods(fromYear, toYear), subreddit, force);
  }
}
