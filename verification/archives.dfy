/** The naming of the comment archives and the months a batch run visits. Both are
    written twice in the source, once in extraction.py and once in downloading.py,
    with the same rules; they are defined once here and used by both models. */
module Archives {
  import opened Text
  import opened Calendar
  import opened Helpers

  /** `RC_{stamp}.{ext}`: the name of one comment archive. */
  function ArchiveName(stamp: string, codec: Codec): string
  {
    "RC_" + stamp + "." + codec.Extension()
  }

  /** The archives holding one month of comments, in the order the source lists them:
      a single monthly archive for years before 2020, otherwise one daily archive for
      each day `datetime.date(year, month, d)` accepts, d running from 1 to 31. */
  function ArchiveNames(year: int, month: int): seq<string>
  {
    var codec := InferExtension(year, month);
    if year < 2020 then [ArchiveName(MonthStamp(year, month), codec)]
    else
      DaysOfMonthSpec(year, month);
      var days := DaysOfMonth(year, month);
      seq(|days|, i requires 0 <= i < |days| => ArchiveName(IsoFormat(days[i]), codec))
  }

  /** Characters of the date stamps in archive names: digits and dashes. */
  predicate StampChars(s: string) {
    forall i :: 0 <= i < |s| ==> IsDigit(s[i]) || s[i] == '-'
  }

  lemma MonthStampChars(year: int, month: int)
    ensures StampChars(MonthStamp(year, month))
  {
    IntToStringShape(year);
    IntToStringShape(month);
    ZFillIntShape(month);
    var ys, ms := IntToString(year), ZFill(IntToString(month), 2);
    assert MonthStamp(year, month) == ys + "-" + ms;
    if month < 0 {
      assert ms == "-" + ms[1..];
    }
  }

  lemma IsoFormatChars(d: Date)
    requires ValidDate(d)
    ensures StampChars(IsoFormat(d))
  {
    IsoFormatShape(d);
    var s := IsoFormat(d);
    assert s == s[..4] + "-" + s[5..7] + "-" + s[8..];
  }

  /** An archive name made from a date stamp has no path separator. */
  lemma ArchiveNameHasNoSlash(stamp: string, codec: Codec)
    requires StampChars(stamp)
    ensures '/' !in ArchiveName(stamp, codec)
  {
    var n := ArchiveName(stamp, codec);
    forall i | 0 <= i < |n|
      ensures n[i] != '/'
    {
      if 3 <= i < 3 + |stamp| {
        assert n[i] == stamp[i - 3];
      }
    }
  }

  /** Every archive name of a month starts with `RC_`. */
  lemma ArchiveNamesPrefix(year: int, month: int)
    ensures forall i :: 0 <= i < |ArchiveNames(year, month)| ==>
      |ArchiveNames(year, month)[i]| > 3 && ArchiveNames(year, month)[i][..3] == "RC_"
  {
  }

  /** Two archive names of the same codec agree only when their stamps do. */
  lemma ArchiveNameInjective(s1: string, s2: string, codec: Codec)
    ensures ArchiveName(s1, codec) == ArchiveName(s2, codec) <==> s1 == s2
  {
    var n1, n2 := ArchiveName(s1, codec), ArchiveName(s2, codec);
    if n1 == n2 {
      assert |s1| == |s2|;
      assert s1 == n1[3..3 + |s1|];
      assert s2 == n2[3..3 + |s2|];
    }
  }

  /** The archives of a month: the monthly archive before 2020, otherwise one per valid
      day of the month in increasing order (28 to 31 of them, none for a month or year
      that `datetime` rejects). */
  lemma ArchiveNamesSpec(year: int, month: int)
    ensures year < 2020 ==>
      ArchiveNames(year, month) == [ArchiveName(MonthStamp(year, month), InferExtension(year, month))]
    ensures year >= 2020 ==> |ArchiveNames(year, month)| == MonthLength(year, month)
    ensures year >= 2020 ==> forall i :: 0 <= i < |ArchiveNames(year, month)| ==>
      ArchiveNames(year, month)[i] == ArchiveName(IsoFormat(Date(year, month, i + 1)), InferExtension(year, month))
  {
    DaysOfMonthSpec(year, month);
    if year >= 2020 {
      var days := DaysOfMonth(year, month);
      var codec := InferExtension(year, month);
      assert ArchiveNames(year, month) == seq(|days|, i requires 0 <= i < |days| => ArchiveName(IsoFormat(days[i]), codec));
      forall i | 0 <= i < |ArchiveNames(year, month)|
        ensures ValidDate(Date(year, month, i + 1))
        ensures ArchiveNames(year, month)[i] == ArchiveName(IsoFormat(Date(year, month, i + 1)), InferExtension(year, month))
      {
        assert days[i] == Date(year, month, i + 1);
      }
    }
  }

  /** No archive name contains a path separator. */
  lemma ArchiveNamesHaveNoSlash(year: int, month: int)
    ensures forall i :: 0 <= i < |ArchiveNames(year, month)| ==> '/' !in ArchiveNames(year, month)[i]
  {
    var codec := InferExtension(year, month);
    ArchiveNamesSpec(year, month);
    if year < 2020 {
      MonthStampChars(year, month);
      ArchiveNameHasNoSlash(MonthStamp(year, month), codec);
    } else {
      forall i | 0 <= i < |ArchiveNames(year, month)|
        ensures '/' !in ArchiveNames(year, month)[i]
      {
        IsoFormatChars(Date(year, month, i + 1));
        ArchiveNameHasNoSlash(IsoFormat(Date(year, month, i + 1)), codec);
      }
    }
  }

  /** A month never lists the same archive twice. */
  lemma ArchiveNamesDistinct(year: int, month: int)
    ensures forall i, j :: 0 <= i < j < |ArchiveNames(year, month)| ==>
      ArchiveNames(year, month)[i] != ArchiveNames(year, month)[j]
  {
    var codec := InferExtension(year, month);
    ArchiveNamesSpec(year, month);
    forall i, j | 0 <= i < j < |ArchiveNames(year, month)|
      ensures ArchiveNames(year, month)[i] != ArchiveNames(year, month)[j]
    {
      var d1, d2 := Date(year, month, i + 1), Date(year, month, j + 1);
      ArchiveNameInjective(IsoFormat(d1), IsoFormat(d2), codec);
      IsoFormatInjective(d1, d2);
    }
  }

  // ------------------------------------------------------------ batch periods

  /** The months of one year a batch run visits: all twelve after 2005, only December
      in 2005 (the first archived month), none before. */
  function YearPeriods(year: int): seq<(int, int)>
  {
    if year > 2005 then seq(12, i requires 0 <= i < 12 => (year, i + 1))
    else if year == 2005 then [(2005, 12)]
    else []
  }

  function PeriodsOfYears(first: int, last: int): seq<(int, int)>
    decreases last - first
  {
    if first > last then [] else YearPeriods(first) + PeriodsOfYears(first + 1, last)
  }

  /** The (year, month) pairs `batch_extract_from_dumps` and `batch_download_dumps` visit,
      in visiting order; reversed bounds are swapped first. */
  function BatchPeriods(fromYear: int, toYear: int): seq<(int, int)>
  {
    if fromYear > toYear then PeriodsOfYears(toYear, fromYear) else PeriodsOfYears(fromYear, toYear)
  }

  /** The months for which archives exist: 2005-12 and every month after. */
  predicate Archived(p: (int, int)) {
    (p.0 > 2005 && 1 <= p.1 <= 12) || (p.0 == 2005 && p.1 == 12)
  }

  function Min(a: int, b: int): int { if a <= b then a else b }

  function Max(a: int, b: int): int { if a <= b then b else a }

  lemma {:induction false} PeriodsOfYearsMembers(first: int, last: int)
    ensures forall p :: p in PeriodsOfYears(first, last) <==> first <= p.0 <= last && Archived(p)
    decreases last - first
  {
    if first <= last {
      PeriodsOfYearsMembers(first + 1, last);
      var head, tail := YearPeriods(first), PeriodsOfYears(first + 1, last);
      assert PeriodsOfYears(first, last) == head + tail;
      forall p: (int, int)
        ensures p in head + tail <==> first <= p.0 <= last && Archived(p)
      {
        if first > 2005 && p.0 == first && 1 <= p.1 <= 12 {
          assert head[p.1 - 1] == p;
        }
      }
    }
  }

  lemma {:induction false} PeriodsOfYearsIncreasing(first: int, last: int)
    ensures forall i, j :: 0 <= i < j < |PeriodsOfYears(first, last)| ==>
      MonthIndex(PeriodsOfYears(first, last)[i].0, PeriodsOfYears(first, last)[i].1)
      < MonthIndex(PeriodsOfYears(first, last)[j].0, PeriodsOfYears(first, last)[j].1)
    decreases last - first
  {
    if first <= last {
      PeriodsOfYearsIncreasing(first + 1, last);
      PeriodsOfYearsMembers(first + 1, last);
      var head, tail := YearPeriods(first), PeriodsOfYears(first + 1, last);
      var all := head + tail;
      assert all == PeriodsOfYears(first, last);
      forall i, j | 0 <= i < j < |all|
        ensures MonthIndex(all[i].0, all[i].1) < MonthIndex(all[j].0, all[j].1)
      {
        if j < |head| {
          assert all[i] == head[i] && all[j] == head[j];
        } else if i < |head| {
          assert all[i] == head[i];
          assert all[j] == tail[j - |head|];
          assert all[j] in tail;
        } else {
          assert all[i] == tail[i - |head|] && all[j] == tail[j - |head|];
        }
      }
    }
  }

  /** The batch visits exactly the archived months of the years between the bounds, in
      either order of the bounds, each once and in increasing order. */
  lemma BatchPeriodsSpec(fromYear: int, toYear: int)
    ensures BatchPeriods(fromYear, toYear) == BatchPeriods(toYear, fromYear)
    ensures forall p :: p in BatchPeriods(fromYear, toYear) <==>
      Min(fromYear, toYear) <= p.0 <= Max(fromYear, toYear) && Archived(p)
    ensures forall i, j :: 0 <= i < j < |BatchPeriods(fromYear, toYear)| ==>
      MonthIndex(BatchPeriods(fromYear, toYear)[i].0, BatchPeriods(fromYear, toYear)[i].1)
      < MonthIndex(BatchPeriods(fromYear, toYear)[j].0, BatchPeriods(fromYear, toYear)[j].1)
  {
    PeriodsOfYearsMembers(Min(fromYear, toYear), Max(fromYear, toYear));
    PeriodsOfYearsIncreasing(Min(fromYear, toYear), Max(fromYear, toYear));
  }
}
