/** processing.py: splitting a month's extracted file into one file per UTC day. */
module Processing {
  import opened Wrappers
  import opened Text
  import opened Calendar
  import opened Environment
  import opened Seqs
  import opened Helpers
  import Extraction

  /** The UTC day a line's record was created on: `json.loads`, then
      `utcfromtimestamp(int(d["created_utc"])).date()`, each of which can raise. */
  function DayOf(parse: Parser, ln: Line): (r: Result<Date, Error>)
    ensures r.Success? ==> ValidDate(r.value)
    ensures r.Success? <==> parse(ln).Some? && parse(ln).value.createdUtc.Some?
                            && MinTimestamp <= parse(ln).value.createdUtc.value <= MaxTimestamp
  {
    match parse(ln)
    case None => Failure(MalformedLine(ln))
    case Some(rec) =>
      match rec.createdUtc
      case None => Failure(MissingField("created_utc"))
      case Some(t) =>
        match UtcDate(t)
        case None => Failure(TimestampOutOfRange(t))
        case Some(day) => Success(day)
  }

  /** A date `datetime` can represent. */
  type Day = d: Date | ValidDate(d) witness Date(1970, 1, 1)

  /** How the split loop finds the day of a line; `Dating(parse)` is the source's way. */
  type Dater = Line -> Result<Day, Error>

  function Dating(parse: Parser): Dater {
    ln => DayOf(parse, ln)
  }

  /** `dn / f"{subreddit}_{day.isoformat()}"`: the file of one day's comments. */
  function DayPath(dn: Path, subreddit: string, day: Day): Path
  {
    Join(dn, subreddit + "_" + IsoFormat(day))
  }

  /** Different days have different files. */
  lemma DayPathInjective(dn: Path, subreddit: string, d1: Day, d2: Day)
    ensures DayPath(dn, subreddit, d1) == DayPath(dn, subreddit, d2) <==> d1 == d2
  {
    var n1, n2 := subreddit + "_" + IsoFormat(d1), subreddit + "_" + IsoFormat(d2);
    if DayPath(dn, subreddit, d1) == DayPath(dn, subreddit, d2) {
      assert n1 == DayPath(dn, subreddit, d1)[|dn|];
      assert n2 == DayPath(dn, subreddit, d2)[|dn|];
      IsoFormatShape(d1);
      IsoFormatShape(d2);
      assert IsoFormat(d1) == n1[|subreddit| + 1..];
      assert IsoFormat(d2) == n2[|subreddit| + 1..];
      IsoFormatInjective(d1, d2);
    }
  }

  /** No day file is the monthly file being split, so splitting never writes its own input. */
  lemma DayPathIsNotSource(dataDir: Path, subreddit: string, year: int, month: int, day: Day)
    ensures DayPath(Join(dataDir, AsciiLower(subreddit)), AsciiLower(subreddit), day)
            != Extraction.OutputPath(dataDir, subreddit, year, month)
  {
    var s := AsciiLower(subreddit);
    var dn := Join(dataDir, s);
    var iso, stamp := IsoFormat(day), MonthStamp(year, month);
    var n1, n2 := s + "_" + iso, s + "_" + stamp;
    MonthStampIsNotIsoDate(day, year, month);
    assert n1[|s| + 1..] == iso;
    assert n2[|s| + 1..] == stamp;
    assert DayPath(dn, s, day) == dn + [n1];
    assert Extraction.OutputPath(dataDir, subreddit, year, month) == dn + [n2];
    assert (dn + [n1])[|dn|] == n1;
    assert (dn + [n2])[|dn|] == n2;
  }

  /** The file of each day's comments in folder `dn`. */
  function DayFiles(dn: Path, subreddit: string): Namer {
    (d: Day) => DayPath(dn, subreddit, d)
  }

  lemma DayFilesInjective(dn: Path, subreddit: string)
    ensures Injective(DayFiles(dn, subreddit))
  {
    forall d1: Day, d2: Day | DayFiles(dn, subreddit)(d1) == DayFiles(dn, subreddit)(d2)
      ensures d1 == d2
    {
      DayPathInjective(dn, subreddit, d1, d2);
    }
  }

  // ------------------------------------------------------------ the split loop

  /** Where the split loop writes the lines of a day. */
  type Namer = Day -> Path

  /** Different days go to different files. */
  ghost predicate Injective(name: Namer) {
    forall d1: Day, d2: Day :: name(d1) == name(d2) ==> d1 == d2
  }

  /** The loop's state after a prefix of the input: the day of the one open output file,
      the files, how many times an output file was opened, and the exception that ended
      the loop, if any. */
  datatype Split = Split(curDay: Option<Day>, fs: FileSystem, opens: nat, failure: Option<Error>)

  /** The loop of `split_extracted`: a line of a new day (re)opens that day's file in mode
      "w", truncating it, and every line is then appended to the open file; the first line
      whose day cannot be determined ends the loop. The open file always exists. */
  function SplitLines(day: Dater, fs: FileSystem, name: Namer, lines: seq<Line>): (r: Split)
    ensures r.curDay.Some? ==> name(r.curDay.value) in r.fs
    decreases |lines|
  {
    if |lines| == 0 then Split(None, fs, 0, None)
    else
      var prev := SplitLines(day, fs, name, lines[..|lines| - 1]);
      var ln := lines[|lines| - 1];
      if prev.failure.Some? then prev
      else
        match day(ln)
        case Failure(e) => Split(prev.curDay, prev.fs, prev.opens, Some(e))
        case Success(d) =>
          var p := name(d);
          if prev.curDay != Some(d) then Split(Some(d), prev.fs[p := [ln]], prev.opens + 1, None)
          else Split(Some(d), prev.fs[p := prev.fs[p] + [ln]], prev.opens, None)
  }

  /** A line created on day `d`. */
  predicate OnDay(day: Dater, ln: Line, d: Day) {
    day(ln) == Success(d)
  }

  function OnDayFilter(day: Dater, d: Day): Line -> bool {
    ln => OnDay(day, ln, d)
  }

  /** The longest suffix of `lines` created on day `d`. */
  function TrailingRun(day: Dater, lines: seq<Line>, d: Day): seq<Line>
    decreases |lines|
  {
    if |lines| == 0 || !OnDay(day, lines[|lines| - 1], d) then []
    else TrailingRun(day, lines[..|lines| - 1], d) + [lines[|lines| - 1]]
  }

  /** The last maximal block of consecutive lines created on day `d`. */
  function LastRun(day: Dater, lines: seq<Line>, d: Day): seq<Line>
    decreases |lines|
  {
    if |lines| == 0 then []
    else if OnDay(day, lines[|lines| - 1], d) then TrailingRun(day, lines, d)
    else LastRun(day, lines[..|lines| - 1], d)
  }

  /** The day files the lines can touch. */
  function Touched(day: Dater, name: Namer, lines: seq<Line>): set<Path>
  {
    set i | 0 <= i < |lines| && day(lines[i]).Success? :: name(day(lines[i]).value)
  }

  /** Only day files of the input's days are written. */
  lemma {:induction false} SplitLinesFrame(day: Dater, fs: FileSystem, name: Namer, lines: seq<Line>)
    ensures forall p :: p !in Touched(day, name, lines) ==>
      (p in SplitLines(day, fs, name, lines).fs <==> p in fs)
      && (p in fs ==> SplitLines(day, fs, name, lines).fs[p] == fs[p])
    decreases |lines|
  {
    if |lines| > 0 {
      var init := lines[..|lines| - 1];
      SplitLinesFrame(day, fs, name, init);
      forall p | p in Touched(day, name, init)
        ensures p in Touched(day, name, lines)
      {
        var i :| 0 <= i < |init| && day(init[i]).Success? && p == name(day(init[i]).value);
        assert init[i] == lines[i];
      }
      var k := |lines| - 1;
      if day(lines[k]).Success? {
        assert name(day(lines[k]).value) in Touched(day, name, lines);
      }
    }
  }

  /** The loop fails exactly when some line's day cannot be determined. */
  lemma {:induction false} SplitLinesFails(day: Dater, fs: FileSystem, name: Namer, lines: seq<Line>)
    ensures SplitLines(day, fs, name, lines).failure.None? <==>
      forall i :: 0 <= i < |lines| ==> day(lines[i]).Success?
    decreases |lines|
  {
    if |lines| > 0 {
      var init := lines[..|lines| - 1];
      SplitLinesFails(day, fs, name, init);
      assert forall i :: 0 <= i < |init| ==> init[i] == lines[i];
    }
  }

  /** When the loop fails, it failed on the first bad line `k`, leaving the files as the
      lines before it made them. */
  lemma {:induction false} SplitLinesStops(day: Dater, fs: FileSystem, name: Namer, lines: seq<Line>)
    returns (k: nat)
    requires SplitLines(day, fs, name, lines).failure.Some?
    ensures k < |lines| && day(lines[k]).Failure?
    ensures forall i :: 0 <= i < k ==> day(lines[i]).Success?
    ensures SplitLines(day, fs, name, lines).failure == Some(day(lines[k]).error)
    ensures SplitLines(day, fs, name, lines).fs == SplitLines(day, fs, name, lines[..k]).fs
    decreases |lines|
  {
    var init := lines[..|lines| - 1];
    var prev := SplitLines(day, fs, name, init);
    if prev.failure.Some? {
      k := SplitLinesStops(day, fs, name, init);
      assert init[..k] == lines[..k];
    } else {
      k := |lines| - 1;
      SplitLinesFails(day, fs, name, init);
      assert lines[..k] == init;
    }
  }

  /** After a successful loop the open file is that of the last line's day. */
  lemma SplitLinesCurDay(day: Dater, fs: FileSystem, name: Namer, lines: seq<Line>)
    requires SplitLines(day, fs, name, lines).failure.None?
    ensures |lines| == 0 <==> SplitLines(day, fs, name, lines).curDay.None?
    ensures |lines| > 0 ==> SplitLines(day, fs, name, lines).curDay == Some(day(lines[|lines| - 1]).value)
  {
  }

  /** The number of maximal blocks of consecutive lines created on the same day. */
  function Runs(day: Dater, lines: seq<Line>): nat
    decreases |lines|
  {
    if |lines| == 0 then 0
    else
      var k := |lines| - 1;
      Runs(day, lines[..k]) + (if k == 0 || day(lines[k]) != day(lines[k - 1]) then 1 else 0)
  }

  /** A successful loop opens one output file per block of same-day lines. */
  lemma {:induction false} SplitLinesOpens(day: Dater, fs: FileSystem, name: Namer, lines: seq<Line>)
    requires SplitLines(day, fs, name, lines).failure.None?
    ensures SplitLines(day, fs, name, lines).opens == Runs(day, lines)
    decreases |lines|
  {
    if |lines| > 0 {
      var k := |lines| - 1;
      var init := lines[..k];
      SplitLinesLastOpen(day, fs, name, lines);
      SplitLinesOpens(day, fs, name, init);
      SplitLinesCurDay(day, fs, name, init);
      if k > 0 {
        assert init[k - 1] == lines[k - 1];
      }
    }
  }

  /** The last line of a successful loop opens a file exactly when its day differs from
      the open one. */
  lemma SplitLinesLastOpen(day: Dater, fs: FileSystem, name: Namer, lines: seq<Line>)
    requires |lines| > 0 && SplitLines(day, fs, name, lines).failure.None?
    ensures var prev := SplitLines(day, fs, name, lines[..|lines| - 1]);
      && prev.failure.None?
      && day(lines[|lines| - 1]).Success?
      && SplitLines(day, fs, name, lines).opens
         == prev.opens + (if prev.curDay != Some(day(lines[|lines| - 1]).value) then 1 else 0)
  {
  }

  /** The file of day `d` holds the last block of `d`'s lines. */
  predicate HoldsLastRun(day: Dater, fs: FileSystem, name: Namer, lines: seq<Line>, d: Day) {
    name(d) in fs && fs[name(d)] == LastRun(day, lines, d)
  }

  /** One more line keeps the file of a day at its last block. */
  lemma SplitLinesStep(day: Dater, fs: FileSystem, name: Namer, lines: seq<Line>, d: Day)
    requires Injective(name)
    requires |lines| > 0 && SplitLines(day, fs, name, lines).failure.None?
    requires var init := lines[..|lines| - 1];
      var prev := SplitLines(day, fs, name, init);
      d != day(lines[|lines| - 1]).value || prev.curDay == Some(d) ==> HoldsLastRun(day, prev.fs, name, init, d)
    requires d == day(lines[|lines| - 1]).value || HoldsLastRun(day, SplitLines(day, fs, name, lines[..|lines| - 1]).fs, name, lines[..|lines| - 1], d)
    ensures HoldsLastRun(day, SplitLines(day, fs, name, lines).fs, name, lines, d)
  {
    var init, ln := lines[..|lines| - 1], lines[|lines| - 1];
    var prev := SplitLines(day, fs, name, init);
    var e := day(ln).value;
    SplitLinesCurDay(day, fs, name, init);
    if d == e {
      if prev.curDay != Some(e) {
        assert TrailingRun(day, init, e) == [];
      }
    }
  }

  /** After a successful loop, the file of every day occurring in the input holds the
      last block of consecutive lines of that day: each return to a day truncates its file. */
  lemma {:induction false} SplitLinesLastRun(day: Dater, fs: FileSystem, name: Namer, lines: seq<Line>)
    requires Injective(name)
    requires SplitLines(day, fs, name, lines).failure.None?
    ensures forall i :: 0 <= i < |lines| ==>
      day(lines[i]).Success? && HoldsLastRun(day, SplitLines(day, fs, name, lines).fs, name, lines, day(lines[i]).value)
    decreases |lines|
  {
    SplitLinesFails(day, fs, name, lines);
    if |lines| > 0 {
      var init := lines[..|lines| - 1];
      var prev := SplitLines(day, fs, name, init);
      SplitLinesLastRun(day, fs, name, init);
      SplitLinesCurDay(day, fs, name, init);
      forall i | 0 <= i < |lines|
        ensures HoldsLastRun(day, SplitLines(day, fs, name, lines).fs, name, lines, day(lines[i]).value)
      {
        if i < |init| {
          assert init[i] == lines[i];
        }
        SplitLinesStep(day, fs, name, lines, day(lines[i]).value);
      }
    }
  }

  // ------------------------------------------------------------ chronological input

  /** Every line has a day, and the days never go back: the order in which the archives,
      and so the extracted files, list comments. */
  predicate Chronological(day: Dater, lines: seq<Line>) {
    && (forall i :: 0 <= i < |lines| ==> day(lines[i]).Success?)
    && (forall i, j :: 0 <= i < j < |lines| ==>
          Ordinal(day(lines[i]).value) <= Ordinal(day(lines[j]).value))
  }

  /** Lines whose creation timestamps are in range and never decrease are chronological. */
  lemma TimestampsOrderDays(parse: Parser, lines: seq<Line>)
    requires forall i :: 0 <= i < |lines| ==>
      parse(lines[i]).Some? && parse(lines[i]).value.createdUtc.Some?
      && MinTimestamp <= parse(lines[i]).value.createdUtc.value <= MaxTimestamp
    requires forall i, j :: 0 <= i < j < |lines| ==>
      parse(lines[i]).value.createdUtc.value <= parse(lines[j]).value.createdUtc.value
    ensures Chronological(Dating(parse), lines)
  {
    forall i, j | 0 <= i < j < |lines|
      ensures Ordinal(DayOf(parse, lines[i]).value) <= Ordinal(DayOf(parse, lines[j]).value)
    {
      UtcDateMonotone(parse(lines[i]).value.createdUtc.value, parse(lines[j]).value.createdUtc.value);
    }
  }

  lemma {:induction false} TrailingRunChronological(day: Dater, lines: seq<Line>, d: Day)
    requires Chronological(day, lines)
    requires forall i :: 0 <= i < |lines| ==> Ordinal(day(lines[i]).value) <= Ordinal(d)
    ensures TrailingRun(day, lines, d) == Filter(lines, OnDayFilter(day, d))
    decreases |lines|
  {
    if |lines| > 0 {
      var init, ln := lines[..|lines| - 1], lines[|lines| - 1];
      if OnDay(day, ln, d) {
        TrailingRunChronological(day, init, d);
      } else {
        OrdinalInjective(day(ln).value, d);
        forall i | 0 <= i < |init|
          ensures !OnDay(day, init[i], d)
        {
          assert init[i] == lines[i];
        }
        FilterNone(init, OnDayFilter(day, d));
      }
    }
  }

  /** In chronological input, the lines of a day form one block, so the last block of the
      day is all of the day's lines, in input order. */
  lemma {:induction false} LastRunChronological(day: Dater, lines: seq<Line>, d: Day)
    requires Chronological(day, lines)
    ensures LastRun(day, lines, d) == Filter(lines, OnDayFilter(day, d))
    decreases |lines|
  {
    if |lines| > 0 {
      var init, ln := lines[..|lines| - 1], lines[|lines| - 1];
      assert Chronological(day, init);
      if OnDay(day, ln, d) {
        TrailingRunChronological(day, lines, d);
      } else {
        LastRunChronological(day, init, d);
      }
    }
  }

  // ------------------------------------------------------------ one month

  /** `split_extracted(year, month, subreddit, delete_source)`. A missing monthly file is
      reported and nothing happens; an exception in the loop leaves the day files written
      so far and keeps the monthly file; after a complete loop the monthly file is deleted
      when asked to. */
  function SplitExtracted(parse: Parser, fs: FileSystem, dataDir: Path, year: int, month: int,
                          subreddit: string, deleteSource: bool): Extraction.Run
  {
    var s := AsciiLower(subreddit);
    var src := Extraction.OutputPath(dataDir, subreddit, year, month);
    if src !in fs then Extraction.Run(fs, None)
    else
      var r := SplitLines(Dating(parse), fs, DayFiles(Join(dataDir, s), s), fs[src]);
      if r.failure.Some? then Extraction.Run(r.fs, r.failure)
      else if deleteSource then Extraction.Run(r.fs - {src}, None)
      else Extraction.Run(r.fs, None)
  }

  /** The day files a month's split writes to. */
  function SplitTargets(parse: Parser, dataDir: Path, subreddit: string): Namer {
    DayFiles(Join(dataDir, AsciiLower(subreddit)), AsciiLower(subreddit))
  }

  /** The contract of one month's split:
      - a missing monthly file changes nothing and raises nothing;
      - the split fails exactly when a line of the monthly file has no day, and then the
        monthly file is kept;
      - the monthly file is deleted exactly when the split completes and deletion was asked for;
      - only day files of days occurring in the monthly file are written. */
  lemma SplitExtractedSpec(parse: Parser, fs: FileSystem, dataDir: Path, year: int, month: int,
                           subreddit: string, deleteSource: bool)
    ensures var src := Extraction.OutputPath(dataDir, subreddit, year, month);
      src !in fs ==> SplitExtracted(parse, fs, dataDir, year, month, subreddit, deleteSource) == Extraction.Run(fs, None)
    ensures var src := Extraction.OutputPath(dataDir, subreddit, year, month);
      var r := SplitExtracted(parse, fs, dataDir, year, month, subreddit, deleteSource);
      src in fs ==>
        && (r.failure.None? <==> forall i :: 0 <= i < |fs[src]| ==> DayOf(parse, fs[src][i]).Success?)
        && (src !in r.fs <==> r.failure.None? && deleteSource)
        && (src in r.fs ==> r.fs[src] == fs[src])
    ensures var src := Extraction.OutputPath(dataDir, subreddit, year, month);
      var r := SplitExtracted(parse, fs, dataDir, year, month, subreddit, deleteSource);
      src in fs ==> forall p :: p != src && p !in Touched(Dating(parse), SplitTargets(parse, dataDir, subreddit), fs[src]) ==>
        (p in r.fs <==> p in fs) && (p in fs ==> r.fs[p] == fs[p])
  {
    var s := AsciiLower(subreddit);
    var name := SplitTargets(parse, dataDir, subreddit);
    var src := Extraction.OutputPath(dataDir, subreddit, year, month);
    if src in fs {
      var lines := fs[src];
      SplitLinesFails(Dating(parse), fs, name, lines);
      SplitLinesFrame(Dating(parse), fs, name, lines);
      SourceNotTouched(parse, dataDir, year, month, subreddit, lines);
    }
  }

  lemma SourceNotTouched(parse: Parser, dataDir: Path, year: int, month: int, subreddit: string, lines: seq<Line>)
    ensures Extraction.OutputPath(dataDir, subreddit, year, month) !in Touched(Dating(parse), SplitTargets(parse, dataDir, subreddit), lines)
  {
    var name := SplitTargets(parse, dataDir, subreddit);
    forall i | 0 <= i < |lines| && Dating(parse)(lines[i]).Success?
      ensures name(Dating(parse)(lines[i]).value) != Extraction.OutputPath(dataDir, subreddit, year, month)
    {
      DayPathIsNotSource(dataDir, subreddit, year, month, Dating(parse)(lines[i]).value);
    }
  }

  /** After a complete split, the file of each day occurring in the monthly file holds the
      last block of that day's lines, and for chronological input all of that day's lines
      in their original order. */
  lemma SplitExtractedContents(parse: Parser, fs: FileSystem, dataDir: Path, year: int, month: int,
                               subreddit: string, deleteSource: bool)
    ensures var src := Extraction.OutputPath(dataDir, subreddit, year, month);
      var r := SplitExtracted(parse, fs, dataDir, year, month, subreddit, deleteSource);
      var name := SplitTargets(parse, dataDir, subreddit);
      src in fs && r.failure.None? ==> forall i :: 0 <= i < |fs[src]| ==>
        Dating(parse)(fs[src][i]).Success? &&
        var d := Dating(parse)(fs[src][i]).value;
        HoldsLastRun(Dating(parse), r.fs, name, fs[src], d)
        && (Chronological(Dating(parse), fs[src]) ==> r.fs[name(d)] == Filter(fs[src], OnDayFilter(Dating(parse), d)))
  {
    var name := SplitTargets(parse, dataDir, subreddit);
    var src := Extraction.OutputPath(dataDir, subreddit, year, month);
    var r := SplitExtracted(parse, fs, dataDir, year, month, subreddit, deleteSource);
    if src in fs && r.failure.None? {
      var lines := fs[src];
      var loop := SplitLines(Dating(parse), fs, name, lines);
      DayFilesInjective(Join(dataDir, AsciiLower(subreddit)), AsciiLower(subreddit));
      SplitLinesLastRun(Dating(parse), fs, name, lines);
      SourceNotTouched(parse, dataDir, year, month, subreddit, lines);
      forall i | 0 <= i < |lines|
        ensures Dating(parse)(lines[i]).Success?
        ensures var d := Dating(parse)(lines[i]).value;
          HoldsLastRun(Dating(parse), r.fs, name, lines, d)
          && (Chronological(Dating(parse), lines) ==> r.fs[name(d)] == Filter(lines, OnDayFilter(Dating(parse), d)))
      {
        var d := Dating(parse)(lines[i]).value;
        assert HoldsLastRun(Dating(parse), loop.fs, name, lines, d);
        assert name(d) in Touched(Dating(parse), name, lines);
        if Chronological(Dating(parse), lines) {
          LastRunChronological(Dating(parse), lines, d);
        }
      }
    }
  }
}
