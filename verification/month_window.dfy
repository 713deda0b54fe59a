/** The two calendar computations of the ingestion script: the half-open
    window `[first of previous month, first of run month)` handed to the API
    filter (`get_month_window`), and the object-store key named after the
    first day of the previous month (`build_s3_key`). The script derives the
    previous month separately in each function; this model keeps the two
    derivations apart as well and proves that they agree. */
module MonthWindow {
  import opened Base
  import opened Calendar
  import opened Decimal

  /** Run dates the model covers: any valid date from year 1001 on, so that
      every year written is four digits long and January can roll back. */
  predicate Supported(d: Date) {
    IsValid(d) && 1001 <= d.year
  }

  /** Dates `strftime` writes with a four-digit `%Y`. */
  predicate Writable(d: Date) {
    IsValid(d) && 1000 <= d.year
  }

  const MidnightSuffix: string := "T00:00:00.000"

  /** `strftime("%Y-%m-%dT%H:%M:%S.000")` of midnight at the start of `d`. */
  function IsoMidnight(d: Date): string
    requires Writable(d)
  {
    Padded(d.year, 4) + "-" + Padded(d.month, 2) + "-" + Padded(d.day, 2) + MidnightSuffix
  }

  /** `strftime("%Y%m%d")` of `d`. */
  function CompactDate(d: Date): string
    requires Writable(d)
  {
    Padded(d.year, 4) + Padded(d.month, 2) + Padded(d.day, 2)
  }

  /** Reads a `YYYY-MM-DDT00:00:00.000` timestamp back into a date. */
  function ParseIsoMidnight(s: string): Option<Date> {
    if |s| == 23 && AllDigits(s[..4]) && s[4] == '-' && AllDigits(s[5..7])
       && s[7] == '-' && AllDigits(s[8..10]) && s[10..] == MidnightSuffix
    then Some(Date(ValueOf(s[..4]), ValueOf(s[5..7]), ValueOf(s[8..10])))
    else None
  }

  /** Reads a `YYYYMMDD` numeral back into a date. */
  function ParseCompactDate(s: string): Option<Date> {
    if |s| == 8 && AllDigits(s)
    then Some(Date(ValueOf(s[..4]), ValueOf(s[4..6]), ValueOf(s[6..])))
    else None
  }

  /** Where each field of a timestamp sits. */
  lemma IsoMidnightLayout(d: Date)
    requires Writable(d)
    ensures var s := IsoMidnight(d);
              && |s| == 23 && s[4] == '-' && s[7] == '-' && s[10..] == MidnightSuffix
              && s[..4] == Padded(d.year, 4)
              && s[5..7] == Padded(d.month, 2)
              && s[8..10] == Padded(d.day, 2)
  {
  }

  lemma IsoMidnightRoundTrip(d: Date)
    requires Writable(d)
    ensures ParseIsoMidnight(IsoMidnight(d)) == Some(d)
  {
    IsoMidnightLayout(d);
    PaddedAllDigits(d.year, 4);
    PaddedAllDigits(d.month, 2);
    PaddedAllDigits(d.day, 2);
    PaddedRoundTrip(d.year, 4);
    PaddedRoundTrip(d.month, 2);
    PaddedRoundTrip(d.day, 2);
  }

  lemma CompactDateRoundTrip(d: Date)
    requires Writable(d)
    ensures ParseCompactDate(CompactDate(d)) == Some(d)
  {
    var y, m, dd := Padded(d.year, 4), Padded(d.month, 2), Padded(d.day, 2);
    var s := CompactDate(d);
    assert s == y + m + dd;
    assert s[..4] == y;
    assert s[4..6] == m;
    assert s[6..] == dd;
    PaddedAllDigits(d.year, 4);
    PaddedAllDigits(d.month, 2);
    PaddedAllDigits(d.day, 2);
    AllDigitsConcat(y, m);
    AllDigitsConcat(y + m, dd);
    PaddedRoundTrip(d.year, 4);
    PaddedRoundTrip(d.month, 2);
    PaddedRoundTrip(d.day, 2);
  }

  /** `get_month_window`: the timestamps of day 1 of the previous month and
      of day 1 of the run date's month. */
  function GetMonthWindow(runDate: Date): (w: (string, string))
    requires Supported(runDate)
    ensures w.0 == IsoMidnight(FirstOfPreviousMonth(runDate))
    ensures w.1 == IsoMidnight(FirstOfMonth(runDate))
  {
    var currentMonthStart := Date(runDate.year, runDate.month, 1);
    var prevMonthStart :=
      if currentMonthStart.month == 1 then Date(currentMonthStart.year - 1, 12, 1)
      else Date(currentMonthStart.year, currentMonthStart.month - 1, 1);
    PreviousMonthCases(runDate);
    (IsoMidnight(prevMonthStart), IsoMidnight(currentMonthStart))
  }

  const KeyPrefix: string := "chicago/chicago_crime_"
  const KeySuffix: string := ".csv"

  /** The date an object key is named after, when it has the key's shape. */
  function ParseKey(key: string): Option<Date> {
    if |key| == |KeyPrefix| + 8 + |KeySuffix|
       && key[..|KeyPrefix|] == KeyPrefix && key[|KeyPrefix| + 8..] == KeySuffix
    then ParseCompactDate(key[|KeyPrefix|..|KeyPrefix| + 8])
    else None
  }

  lemma KeyRoundTrip(d: Date)
    requires Writable(d)
    ensures ParseKey(KeyPrefix + CompactDate(d) + KeySuffix) == Some(d)
  {
    var key := KeyPrefix + CompactDate(d) + KeySuffix;
    assert key[..|KeyPrefix|] == KeyPrefix;
    assert key[|KeyPrefix| + 8..] == KeySuffix;
    assert key[|KeyPrefix|..|KeyPrefix| + 8] == CompactDate(d);
    CompactDateRoundTrip(d);
  }

  /** `build_s3_key`: `chicago/chicago_crime_YYYYMMDD.csv`, named after day 1
      of the month before the run date's month. */
  function BuildS3Key(runDate: Date): (key: string)
    requires Supported(runDate)
    ensures key == KeyPrefix + CompactDate(FirstOfPreviousMonth(runDate)) + KeySuffix
  {
    var currentMonthStart := Date(runDate.year, runDate.month, 1);
    var prevMonthStart :=
      if currentMonthStart.month == 1 then Date(currentMonthStart.year - 1, 12, 1)
      else Date(currentMonthStart.year, currentMonthStart.month - 1, 1);
    var dateStr := CompactDate(prevMonthStart);
    PreviousMonthCases(runDate);
    KeyPrefix + dateStr + KeySuffix
  }

  /** What the window means: its end is day 1 of the run date's month, its
      start is day 1 of the month just before, and both are valid dates. */
  lemma WindowBounds(runDate: Date)
    requires Supported(runDate)
    ensures ParseIsoMidnight(GetMonthWindow(runDate).1) == Some(FirstOfMonth(runDate))
    ensures ParseIsoMidnight(GetMonthWindow(runDate).0).Some?
    ensures IsValid(ParseIsoMidnight(GetMonthWindow(runDate).0).value)
    ensures ParseIsoMidnight(GetMonthWindow(runDate).0).value.day == 1
    ensures MonthIndex(ParseIsoMidnight(GetMonthWindow(runDate).0).value) + 1 == MonthIndex(runDate)
  {
    IsoMidnightRoundTrip(FirstOfPreviousMonth(runDate));
    IsoMidnightRoundTrip(FirstOfMonth(runDate));
  }

  /** The key's date is the window's start date, and its eight digits are the
      start timestamp's year, month and day digits. */
  lemma KeyMatchesWindowStart(runDate: Date)
    requires Supported(runDate)
    ensures ParseKey(BuildS3Key(runDate)) == ParseIsoMidnight(GetMonthWindow(runDate).0)
    ensures var start := GetMonthWindow(runDate).0;
              BuildS3Key(runDate) == KeyPrefix + start[..4] + start[5..7] + start[8..10] + KeySuffix
  {
    var prev := FirstOfPreviousMonth(runDate);
    var start := GetMonthWindow(runDate).0;
    var key := BuildS3Key(runDate);
    assert start == IsoMidnight(prev);
    assert key == KeyPrefix + CompactDate(prev) + KeySuffix;
    IsoMidnightRoundTrip(prev);
    KeyRoundTrip(prev);
    IsoMidnightLayout(prev);
    assert CompactDate(prev) == start[..4] + start[5..7] + start[8..10];
  }

  /** A date lies in a window `[start, end)` of timestamps. */
  predicate InWindow(x: Date, w: (string, string)) {
    match (ParseIsoMidnight(w.0), ParseIsoMidnight(w.1))
    case (Some(start), Some(end)) => AtOrBefore(start, x) && Before(x, end)
    case _ => false
  }

  /** The window holds exactly the dates of the month before the run date's
      month: a valid date lies in it if and only if its month immediately
      precedes the run month. In particular the run date never does. */
  lemma WindowIsPreviousMonth(runDate: Date, x: Date)
    requires Supported(runDate) && IsValid(x)
    ensures InWindow(x, GetMonthWindow(runDate)) <==> MonthIndex(x) + 1 == MonthIndex(runDate)
  {
    WindowBounds(runDate);
  }

  /** The window and the key depend on the run date's year and month only. */
  lemma DayDoesNotMatter(d1: Date, d2: Date)
    requires Supported(d1) && Supported(d2)
    requires d1.year == d2.year && d1.month == d2.month
    ensures GetMonthWindow(d1) == GetMonthWindow(d2)
    ensures BuildS3Key(d1) == BuildS3Key(d2)
  {
  }

  /** Run dates in different months get different keys, so a run never
      overwrites another month's object; runs in the same month share one. */
  lemma KeysDistinguishMonths(d1: Date, d2: Date)
    requires Supported(d1) && Supported(d2)
    ensures BuildS3Key(d1) == BuildS3Key(d2) <==> MonthIndex(d1) == MonthIndex(d2)
  {
    KeyRoundTrip(FirstOfPreviousMonth(d1));
    KeyRoundTrip(FirstOfPreviousMonth(d2));
    if MonthIndex(d1) == MonthIndex(d2) {
      DayDoesNotMatter(d1, d2);
    }
  }

  /** The window in terms of the digits of the two months. This is a helper
      for the literal examples below. The callers pass the expected digit
      strings, and the requires pin them to the padded numbers, so each
      example only has to evaluate `Padded` on small constants. */
  lemma WindowSpelled(runDate: Date, prevYear: string, prevMonth: string, year: string, month: string)
    requires Supported(runDate)
    requires Padded(FirstOfPreviousMonth(runDate).year, 4) == prevYear
    requires Padded(FirstOfPreviousMonth(runDate).month, 2) == prevMonth
    requires Padded(runDate.year, 4) == year && Padded(runDate.month, 2) == month
    ensures GetMonthWindow(runDate).0 == prevYear + "-" + prevMonth + "-" + "01" + MidnightSuffix
    ensures GetMonthWindow(runDate).1 == year + "-" + month + "-" + "01" + MidnightSuffix
  {
    assert Padded(1, 2) == "01";
  }

  /** The key in terms of the digits of the previous month. This is a helper
      for the literal examples below, used in the same way as `WindowSpelled`. */
  lemma KeySpelled(runDate: Date, prevYear: string, prevMonth: string)
    requires Supported(runDate)
    requires Padded(FirstOfPreviousMonth(runDate).year, 4) == prevYear
    requires Padded(FirstOfPreviousMonth(runDate).month, 2) == prevMonth
    ensures BuildS3Key(runDate) == KeyPrefix + (prevYear + prevMonth + "01") + KeySuffix
  {
    assert Padded(1, 2) == "01";
  }

  lemma ExampleWindowMidDecember()
    ensures GetMonthWindow(Date(2025, 12, 18)) == ("2025-11-01T00:00:00.000", "2025-12-01T00:00:00.000")
  {
    assert FirstOfPreviousMonth(Date(2025, 12, 18)) == Date(2025, 11, 1);
    WindowSpelled(Date(2025, 12, 18), "2025", "11", "2025", "12");
    assert "2025" + "-" + "11" + "-" + "01" + MidnightSuffix == "2025-11-01T00:00:00.000";
    assert "2025" + "-" + "12" + "-" + "01" + MidnightSuffix == "2025-12-01T00:00:00.000";
  }

  lemma ExampleKeyMidDecember()
    ensures BuildS3Key(Date(2025, 12, 18)) == "chicago/chicago_crime_20251101.csv"
  {
    assert FirstOfPreviousMonth(Date(2025, 12, 18)) == Date(2025, 11, 1);
    KeySpelled(Date(2025, 12, 18), "2025", "11");
    assert KeyPrefix + ("2025" + "11" + "01") + KeySuffix == "chicago/chicago_crime_20251101.csv";
  }

  lemma ExampleWindowJanuary()
    ensures GetMonthWindow(Date(2025, 1, 10)) == ("2024-12-01T00:00:00.000", "2025-01-01T00:00:00.000")
  {
    assert FirstOfPreviousMonth(Date(2025, 1, 10)) == Date(2024, 12, 1);
    WindowSpelled(Date(2025, 1, 10), "2024", "12", "2025", "01");
    assert "2024" + "-" + "12" + "-" + "01" + MidnightSuffix == "2024-12-01T00:00:00.000";
    assert "2025" + "-" + "01" + "-" + "01" + MidnightSuffix == "2025-01-01T00:00:00.000";
  }

  lemma ExampleKeyJanuary()
    ensures BuildS3Key(Date(2025, 1, 10)) == "chicago/chicago_crime_20241201.csv"
  {
    assert FirstOfPreviousMonth(Date(2025, 1, 10)) == Date(2024, 12, 1);
    KeySpelled(Date(2025, 1, 10), "2024", "12");
    assert KeyPrefix + ("2024" + "12" + "01") + KeySuffix == "chicago/chicago_crime_20241201.csv";
  }
}
