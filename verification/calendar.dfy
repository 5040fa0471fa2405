/** The proleptic Gregorian calendar as Python's `datetime` module implements it:
    dates of years 1 to 9999, ordinals counting 0001-01-01 as day 1, UTC dates of
    Unix timestamps, and the `YYYY-MM-DD` rendering of `date.isoformat`. */
module Calendar {
  import opened Wrappers
  import opened Text

  datatype Date = Date(year: int, month: int, day: int)

  /** `datetime.MINYEAR` and `datetime.MAXYEAR`. */
  const MinYear := 1
  const MaxYear := 9999

  predicate IsLeap(y: int) {
    y % 4 == 0 && (y % 100 != 0 || y % 400 == 0)
  }

  function DaysInMonth(y: int, m: int): int
    requires 1 <= m <= 12
  {
    if m == 2 then (if IsLeap(y) then 29 else 28)
    else if m == 4 || m == 6 || m == 9 || m == 11 then 30
    else 31
  }

  function DaysInYear(y: int): int {
    if IsLeap(y) then 366 else 365
  }

  /** The dates `datetime.date(year, month, day)` accepts without raising `ValueError`. */
  predicate ValidDate(d: Date) {
    MinYear <= d.year <= MaxYear && 1 <= d.month <= 12 && 1 <= d.day <= DaysInMonth(d.year, d.month)
  }

  /** Days from 0001-01-01 up to the first of January of year `y`. */
  function DaysBeforeYear(y: int): int {
    var p := y - 1;
    p * 365 + p / 4 - p / 100 + p / 400
  }

  /** Days of year `y` before the first of month `m`; month 13 stands for the end of the year. */
  function DaysBeforeMonth(y: int, m: int): int
    requires 1 <= m <= 13
  {
    [0, 31, 59, 90, 120, 151, 181, 212, 243, 273, 304, 334, 365][m - 1]
    + (if m > 2 && IsLeap(y) then 1 else 0)
  }

  /** `date.toordinal()`: 0001-01-01 is day 1. */
  function Ordinal(d: Date): int
    requires 1 <= d.month <= 12
  {
    DaysBeforeYear(d.year) + DaysBeforeMonth(d.year, d.month) + d.day
  }

  /** The ordinal of 9999-12-31, the last date `datetime` can represent. */
  const MaxOrdinal := 3652059

  // ------------------------------------------------------------ arithmetic facts

  lemma {:induction false} MulAtLeast(k: int, t: int)
    requires 0 < k && 1 <= t
    ensures k * t >= k
    decreases t
  {
    if t > 1 {
      MulAtLeast(k, t - 1);
      assert k * t == k * (t - 1) + k;
    }
  }

  /** Euclidean division is determined by any quotient-remainder decomposition. */
  lemma DivUnique(a: int, k: int, q: int, r: int)
    requires 0 < k && a == k * q + r && 0 <= r < k
    ensures a / k == q
  {
    var q', r' := a / k, a % k;
    assert a == k * q' + r' && 0 <= r' < k;
    if q > q' {
      MulAtLeast(k, q - q');
    } else if q < q' {
      MulAtLeast(k, q' - q);
    }
  }

  lemma DivStep(y: int, k: int)
    requires 0 < k
    ensures y / k - (y - 1) / k == if y % k == 0 then 1 else 0
  {
    var q, r := y / k, y % k;
    assert y == k * q + r && 0 <= r < k;
    if r == 0 {
      DivUnique(y - 1, k, q - 1, k - 1);
    } else {
      DivUnique(y - 1, k, q, r - 1);
    }
  }

  /** A multiple of `k` leaves no remainder. */
  lemma MultipleMod(y: int, k: int, q: int)
    requires 0 < k && y == k * q
    ensures y % k == 0
  {
    DivUnique(y, k, q, 0);
  }

  lemma LeapByDivisibility(y: int)
    ensures y % 400 == 0 ==> y % 100 == 0
    ensures y % 100 == 0 ==> y % 4 == 0
  {
    if y % 400 == 0 {
      var q := y / 400;
      assert y == 400 * q;
      MultipleMod(y, 100, 4 * q);
    }
    if y % 100 == 0 {
      var q := y / 100;
      assert y == 100 * q;
      MultipleMod(y, 4, 25 * q);
    }
  }

  /** Consecutive first-of-January ordinals are one year's length apart. */
  lemma DaysBeforeYearStep(y: int)
    ensures DaysBeforeYear(y + 1) == DaysBeforeYear(y) + DaysInYear(y)
  {
    DivStep(y, 4);
    DivStep(y, 100);
    DivStep(y, 400);
    LeapByDivisibility(y);
  }

  /** Later years start later. */
  lemma {:induction false} DaysBeforeYearMonotone(a: int, b: int)
    requires a <= b
    ensures DaysBeforeYear(a) + 365 * (b - a) <= DaysBeforeYear(b)
    decreases b - a
  {
    if a < b {
      DaysBeforeYearMonotone(a, b - 1);
      DaysBeforeYearStep(b - 1);
    }
  }

  /** Consecutive first-of-month offsets are one month's length apart. */
  lemma DaysBeforeMonthStep(y: int, m: int)
    requires 1 <= m <= 12
    ensures DaysBeforeMonth(y, m + 1) == DaysBeforeMonth(y, m) + DaysInMonth(y, m)
  {
  }

  lemma DaysBeforeMonthBounds(y: int, m: int)
    requires 1 <= m <= 12
    ensures 0 <= DaysBeforeMonth(y, m)
    ensures DaysBeforeMonth(y, m + 1) <= DaysBeforeMonth(y, 13) == DaysInYear(y)
  {
  }

  // ------------------------------------------------------------ ordinal to date

  /** Walks the months of year `y` from month `m` to find day `n` counted from the first of `m`. */
  function MonthFrom(y: int, m: int, n: int): Date
    requires 1 <= m <= 12
    requires 1 <= n <= DaysBeforeMonth(y, 13) - DaysBeforeMonth(y, m)
    decreases 12 - m
  {
    DaysBeforeMonthStep(y, m);
    if n <= DaysInMonth(y, m) then Date(y, m, n)
    else MonthFrom(y, m + 1, n - DaysInMonth(y, m))
  }

  /** Walks the years from `y` to find the date whose ordinal is `n`. */
  function YearFrom(y: int, n: int): Date
    requires DaysBeforeYear(y) < n
    decreases n - DaysBeforeYear(y)
  {
    DaysBeforeYearStep(y);
    DaysBeforeMonthBounds(y, 1);
    if n <= DaysBeforeYear(y + 1) then MonthFrom(y, 1, n - DaysBeforeYear(y))
    else YearFrom(y + 1, n)
  }

  /** `date.fromordinal(n)`. */
  function FromOrdinal(n: int): Date
    requires 1 <= n
  {
    assert DaysBeforeYear(1) == 0;
    YearFrom(1, n)
  }

  lemma {:induction false} MonthFromSound(y: int, m: int, n: int)
    requires 1 <= m <= 12
    requires 1 <= n <= DaysBeforeMonth(y, 13) - DaysBeforeMonth(y, m)
    ensures var d := MonthFrom(y, m, n);
      && d.year == y && m <= d.month <= 12 && 1 <= d.day <= DaysInMonth(y, d.month)
      && DaysBeforeMonth(y, d.month) + d.day == DaysBeforeMonth(y, m) + n
    decreases 12 - m
  {
    DaysBeforeMonthStep(y, m);
    if n > DaysInMonth(y, m) {
      MonthFromSound(y, m + 1, n - DaysInMonth(y, m));
    }
  }

  /** The date `YearFrom` finds for an ordinal `n`: in year `y` or later, a real day of a
      real month, in the year whose days hold `n`, with ordinal `n`. */
  predicate FoundFrom(y: int, n: int, d: Date) {
    && y <= d.year && 1 <= d.month <= 12 && 1 <= d.day <= DaysInMonth(d.year, d.month)
    && DaysBeforeYear(d.year) < n <= DaysBeforeYear(d.year + 1)
    && Ordinal(d) == n
  }

  /** An ordinal within year `y` is found among that year's months. */
  lemma YearFromHereSound(y: int, n: int)
    requires DaysBeforeYear(y) < n <= DaysBeforeYear(y + 1)
    ensures FoundFrom(y, n, YearFrom(y, n))
  {
    DaysBeforeYearStep(y);
    DaysBeforeMonthBounds(y, 1);
    MonthFromSound(y, 1, n - DaysBeforeYear(y));
  }

  lemma {:induction false} YearFromSound(y: int, n: int)
    requires DaysBeforeYear(y) < n
    ensures FoundFrom(y, n, YearFrom(y, n))
    decreases n - DaysBeforeYear(y)
  {
    DaysBeforeYearStep(y);
    if n <= DaysBeforeYear(y + 1) {
      YearFromHereSound(y, n);
    } else {
      YearFromSkip(y, n);
      YearFromSound(y + 1, n);
    }
  }

  /** Every ordinal in `datetime`'s range names a valid date, whose ordinal it is. */
  lemma FromOrdinalSound(n: int)
    requires 1 <= n <= MaxOrdinal
    ensures ValidDate(FromOrdinal(n))
    ensures Ordinal(FromOrdinal(n)) == n
  {
    assert DaysBeforeYear(1) == 0;
    YearFromSound(1, n);
    var d := FromOrdinal(n);
    if d.year > MaxYear {
      DaysBeforeYearMonotone(MaxYear + 1, d.year);
    }
  }

  lemma {:induction false} MonthFromFinds(y: int, k: int, d: Date)
    requires 1 <= k <= d.month <= 12 && d.year == y && 1 <= d.day <= DaysInMonth(y, d.month)
    requires 1 <= DaysBeforeMonth(y, d.month) - DaysBeforeMonth(y, k) + d.day <= DaysBeforeMonth(y, 13) - DaysBeforeMonth(y, k)
    ensures MonthFrom(y, k, DaysBeforeMonth(y, d.month) - DaysBeforeMonth(y, k) + d.day) == d
    decreases 12 - k
  {
    DaysBeforeMonthStep(y, k);
    if k < d.month {
      DaysBeforeMonthBounds(y, d.month);
      MonthFromOrder(y, k + 1, d.month);
      MonthFromFinds(y, k + 1, d);
    }
  }

  lemma {:induction false} MonthFromOrder(y: int, a: int, b: int)
    requires 1 <= a <= b <= 12
    ensures DaysBeforeMonth(y, a) <= DaysBeforeMonth(y, b)
    decreases b - a
  {
    if a < b {
      MonthFromOrder(y, a, b - 1);
      DaysBeforeMonthStep(y, b - 1);
    }
  }

  /** A valid date's ordinal lies within its own year. */
  lemma OrdinalWithinYear(d: Date)
    requires ValidDate(d)
    ensures DaysBeforeYear(d.year) < Ordinal(d) <= DaysBeforeYear(d.year + 1)
  {
    DaysBeforeYearStep(d.year);
    DaysBeforeMonthBounds(d.year, d.month);
    DaysBeforeMonthStep(d.year, d.month);
  }

  /** Walking from a date's own year finds the date among that year's months. */
  lemma YearFromHere(d: Date)
    requires ValidDate(d)
    ensures DaysBeforeYear(d.year) < Ordinal(d)
    ensures YearFrom(d.year, Ordinal(d)) == d
  {
    OrdinalWithinYear(d);
    DaysBeforeMonthBounds(d.year, 1);
    DaysBeforeMonthBounds(d.year, d.month);
    DaysBeforeMonthStep(d.year, d.month);
    MonthFromFinds(d.year, 1, d);
  }

  /** An ordinal beyond year `y` is looked for from the next year on. */
  lemma YearFromSkip(y: int, n: int)
    requires DaysBeforeYear(y + 1) < n
    ensures DaysBeforeYear(y) < n
    ensures YearFrom(y, n) == YearFrom(y + 1, n)
  {
    DaysBeforeYearStep(y);
  }

  /** Years before the one holding ordinal `n` are walked past. */
  lemma {:induction false} YearFromSkipMany(y: int, z: int, n: int)
    requires y <= z && DaysBeforeYear(z) < n
    ensures DaysBeforeYear(y) < n
    ensures YearFrom(y, n) == YearFrom(z, n)
    decreases z - y
  {
    if y < z {
      YearFromSkipMany(y + 1, z, n);
      YearFromSkip(y, n);
    }
  }

  /** Walking from any earlier year finds a valid date from its ordinal. */
  lemma YearFromFinds(y: int, d: Date)
    requires ValidDate(d) && y <= d.year
    ensures DaysBeforeYear(y) < Ordinal(d)
    ensures YearFrom(y, Ordinal(d)) == d
  {
    YearFromHere(d);
    YearFromSkipMany(y, d.year, Ordinal(d));
  }

  /** A valid date is recovered from its ordinal. */
  lemma OrdinalRoundTrip(d: Date)
    requires ValidDate(d)
    ensures 1 <= Ordinal(d) <= MaxOrdinal
    ensures FromOrdinal(Ordinal(d)) == d
  {
    OrdinalRange();
    YearFromFinds(1, d);
    OrdinalWithinYear(d);
    DaysBeforeYearMonotone(d.year + 1, MaxYear + 1);
  }

  /** Year 1 starts the count, and `MaxOrdinal` is the last day of year 9999. */
  lemma OrdinalRange()
    ensures DaysBeforeYear(MinYear) == 0
    ensures DaysBeforeYear(MaxYear + 1) == MaxOrdinal
  {
  }

  /** Distinct valid dates have distinct ordinals. */
  lemma OrdinalInjective(d1: Date, d2: Date)
    requires ValidDate(d1) && ValidDate(d2)
    ensures Ordinal(d1) == Ordinal(d2) <==> d1 == d2
  {
    OrdinalRoundTrip(d1);
    OrdinalRoundTrip(d2);
  }

  // ------------------------------------------------------------ Unix time

  const SecondsPerDay := 86400

  const Epoch := Date(1970, 1, 1)

  /** The earliest and latest timestamps `utcfromtimestamp` turns into a date of years 1..9999. */
  const MinTimestamp := -62135596800
  const MaxTimestamp := 253402300799

  /** `datetime.utcfromtimestamp(t).date()` for an integer timestamp: the civil date
      `floor(t / 86400)` days after 1970-01-01, or `None` where Python raises because
      the year would fall outside 1..9999. */
  function UtcDate(t: int): (r: Option<Date>)
    ensures r.Some? <==> MinTimestamp <= t <= MaxTimestamp
    ensures r.Some? ==> ValidDate(r.value)
    ensures r.Some? ==> Ordinal(r.value) == Ordinal(Epoch) + t / SecondsPerDay
  {
    var n := Ordinal(Epoch) + t / SecondsPerDay;
    assert Ordinal(Epoch) == 719163;
    if 1 <= n <= MaxOrdinal then FromOrdinalSound(n); Some(FromOrdinal(n)) else None
  }

  /** A record stamped `s` seconds into Unix day `k` falls on that day: a timestamp of
      exactly `k * 86400` (midnight UTC) opens day `k` and does not belong to day `k - 1`. */
  lemma UtcDateOfDay(k: int, s: int)
    requires 0 <= s < SecondsPerDay
    requires MinTimestamp <= k * SecondsPerDay + s <= MaxTimestamp
    ensures UtcDate(k * SecondsPerDay + s).Some?
    ensures Ordinal(UtcDate(k * SecondsPerDay + s).value) == Ordinal(Epoch) + k
  {
    assert (k * SecondsPerDay + s) / SecondsPerDay == k;
  }

  /** Later timestamps never fall on earlier dates. */
  lemma UtcDateMonotone(t1: int, t2: int)
    requires MinTimestamp <= t1 <= t2 <= MaxTimestamp
    ensures Ordinal(UtcDate(t1).value) <= Ordinal(UtcDate(t2).value)
  {
    assert t1 / SecondsPerDay <= t2 / SecondsPerDay;
  }

  /** Two timestamps fall on the same date exactly when they fall in the same Unix day. */
  lemma UtcDateSameDay(t1: int, t2: int)
    requires MinTimestamp <= t1 <= MaxTimestamp && MinTimestamp <= t2 <= MaxTimestamp
    ensures UtcDate(t1) == UtcDate(t2) <==> t1 / SecondsPerDay == t2 / SecondsPerDay
  {
    OrdinalInjective(UtcDate(t1).value, UtcDate(t2).value);
  }

  // ------------------------------------------------------------ renderings

  /** `date.isoformat()`: the RFC 3339 (section 5.6) `full-date` form `YYYY-MM-DD`. */
  function IsoFormat(d: Date): string
    requires ValidDate(d)
  {
    PadNat(d.year, 4) + "-" + PadNat(d.month, 2) + "-" + PadNat(d.day, 2)
  }

  /** `date.fromisoformat` restricted to the `YYYY-MM-DD` form. */
  function ParseIsoDate(s: string): Option<Date>
  {
    if |s| == 10 && s[4] == '-' && s[7] == '-'
       && AllDigits(s[..4]) && AllDigits(s[5..7]) && AllDigits(s[8..])
    then
      var d := Date(ParseNat(s[..4]), ParseNat(s[5..7]), ParseNat(s[8..]));
      if ValidDate(d) then Some(d) else None
    else None
  }

  /** The layout of an ISO date: ten characters, dashes at positions 4 and 7, digits elsewhere. */
  lemma IsoFormatShape(d: Date)
    requires ValidDate(d)
    ensures var s := IsoFormat(d);
      && |s| == 10 && s[4] == '-' && s[7] == '-'
      && s[..4] == PadNat(d.year, 4) && s[5..7] == PadNat(d.month, 2) && s[8..] == PadNat(d.day, 2)
      && AllDigits(s[..4]) && AllDigits(s[5..7]) && AllDigits(s[8..])
  {
    assert Pow10(4) == 10000 && Pow10(2) == 100;
    PadNatRoundTrip(d.year, 4);
    PadNatRoundTrip(d.month, 2);
    PadNatRoundTrip(d.day, 2);
  }

  /** Reading back an ISO date gives the date. */
  lemma IsoFormatRoundTrip(d: Date)
    requires ValidDate(d)
    ensures ParseIsoDate(IsoFormat(d)) == Some(d)
  {
    IsoFormatShape(d);
    assert Pow10(4) == 10000 && Pow10(2) == 100;
    PadNatRoundTrip(d.year, 4);
    PadNatRoundTrip(d.month, 2);
    PadNatRoundTrip(d.day, 2);
  }

  /** Distinct valid dates have distinct ISO renderings. */
  lemma IsoFormatInjective(d1: Date, d2: Date)
    requires ValidDate(d1) && ValidDate(d2)
    ensures IsoFormat(d1) == IsoFormat(d2) <==> d1 == d2
  {
    IsoFormatRoundTrip(d1);
    IsoFormatRoundTrip(d2);
  }

  /** The `{year}-{str(month).zfill(2)}` stamp naming monthly files; the year is not padded. */
  function MonthStamp(year: int, month: int): string
  {
    IntToString(year) + "-" + ZFill(IntToString(month), 2)
  }

  /** No month stamp, whatever its year and month, looks like an ISO date. */
  lemma MonthStampIsNotIsoDate(d: Date, year: int, month: int)
    requires ValidDate(d)
    ensures IsoFormat(d) != MonthStamp(year, month)
  {
    var iso := IsoFormat(d);
    var ys, ms := IntToString(year), ZFill(IntToString(month), 2);
    var s := MonthStamp(year, month);
    IsoFormatShape(d);
    IntToStringShape(year);
    ZFillIntShape(month);
    IntToStringShape(month);
    assert s[..|ys|] == ys && s[|ys|] == '-' && s[|ys| + 1..] == ms;
    assert IsDigit(iso[0]) && IsDigit(iso[1]) && IsDigit(iso[2]) && IsDigit(iso[3]);
    assert IsDigit(iso[5]) && IsDigit(iso[6]) && IsDigit(iso[8]) && IsDigit(iso[9]);
    if |ys| == 4 && |s| == 10 {
      assert ms[2] == s[7];
      assert ms[1] == s[6];
    }
  }

  // ------------------------------------------------------------ days of a month

  /** The dates the loop `for d in range(start, 32)` keeps: those `datetime.date(year, month, d)` accepts. */
  function ValidDaysFrom(year: int, month: int, start: int): seq<Date>
    decreases 32 - start
  {
    if start > 31 then []
    else (if ValidDate(Date(year, month, start)) then [Date(year, month, start)] else [])
         + ValidDaysFrom(year, month, start + 1)
  }

  /** The valid days of a month in increasing order, as the daily-archive loops enumerate them. */
  function DaysOfMonth(year: int, month: int): seq<Date>
  {
    ValidDaysFrom(year, month, 1)
  }

  /** How many days a month has in `datetime`'s calendar, and 0 for a year or month it rejects. */
  function MonthLength(year: int, month: int): int
  {
    if MinYear <= year <= MaxYear && 1 <= month <= 12 then DaysInMonth(year, month) else 0
  }

  lemma {:induction false} ValidDaysFromSpec(year: int, month: int, start: int)
    requires 1 <= start <= 32
    ensures var r := ValidDaysFrom(year, month, start);
      && |r| == (if MonthLength(year, month) >= start then MonthLength(year, month) - start + 1 else 0)
      && forall i :: 0 <= i < |r| ==> r[i] == Date(year, month, start + i)
    decreases 32 - start
  {
    if start <= 31 {
      ValidDaysFromSpec(year, month, start + 1);
    }
  }

  /** One date per valid day of the month, day 1 first: 28, 29, 30 or 31 of them for a valid
      year and month, none otherwise. */
  lemma DaysOfMonthSpec(year: int, month: int)
    ensures |DaysOfMonth(year, month)| == MonthLength(year, month)
    ensures MinYear <= year <= MaxYear && 1 <= month <= 12 ==> 28 <= |DaysOfMonth(year, month)| <= 31
    ensures forall i :: 0 <= i < |DaysOfMonth(year, month)| ==>
      DaysOfMonth(year, month)[i] == Date(year, month, i + 1) && ValidDate(DaysOfMonth(year, month)[i])
  {
    ValidDaysFromSpec(year, month, 1);
  }
}
