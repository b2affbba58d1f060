/** `DATE_WINDOWS`: the fixed (start, end) date pairs of each run mode, all in 2025. */
module Windows {
  import opened Outcomes
  import opened Text
  import opened Dates

  datatype Window = Window(start: string, end: string)

  const Q1Windows: seq<Window> := [Window("01/01/2025", "03/31/2025")]
  const Q2Windows: seq<Window> := [Window("04/01/2025", "06/30/2025")]
  const Q3Windows: seq<Window> := [Window("07/01/2025", "09/30/2025")]
  const Q4Windows: seq<Window> := [Window("10/01/2025", "12/31/2025")]
  const FullYearWindows: seq<Window> := [
    Window("01/01/2025", "03/31/2025"),
    Window("04/01/2025", "06/30/2025"),
    Window("07/01/2025", "09/30/2025"),
    Window("10/01/2025", "12/31/2025")
  ]
  const MonthlyWindows: seq<Window> := [
    Window("01/01/2025", "01/31/2025"),
    Window("02/01/2025", "02/28/2025"),
    Window("03/01/2025", "03/31/2025"),
    Window("04/01/2025", "04/30/2025"),
    Window("05/01/2025", "05/31/2025"),
    Window("06/01/2025", "06/30/2025"),
    Window("07/01/2025", "07/31/2025"),
    Window("08/01/2025", "08/31/2025"),
    Window("09/01/2025", "09/30/2025"),
    Window("10/01/2025", "10/31/2025"),
    Window("11/01/2025", "11/30/2025"),
    Window("12/01/2025", "12/31/2025")
  ]

  /** `DATE_WINDOWS`: the named modes and their (start, end) pairs, all in 2025. */
  const DateWindows: map<string, seq<Window>> := map[
    "q1" := Q1Windows,
    "q2" := Q2Windows,
    "q3" := Q3Windows,
    "q4" := Q4Windows,
    "full_year" := FullYearWindows,
    "monthly" := MonthlyWindows
  ]

  /** The window that runs from the first day of month `first` to the last day of month `last` of `year`. */
  function CalendarWindow(first: nat, last: nat, year: nat): Window {
    Window(FormatDate(Date(first, 1, year)), FormatDate(Date(last, DaysInMonth(last, year), year)))
  }

  lemma MonthWindowIs(i: nat)
    requires 1 <= i <= 12
    ensures MonthlyWindows[i - 1] == CalendarWindow(i, i, 2025)
  {
    MonthStartIs(i);
    MonthEndIs(i);
  }

  lemma MonthStartIs(i: nat)
    requires 1 <= i <= 12
    ensures MonthlyWindows[i - 1].start == FormatDate(Date(i, 1, 2025))
  {
  }

  lemma MonthEndIs(i: nat)
    requires 1 <= i <= 12
    ensures MonthlyWindows[i - 1].end == FormatDate(Date(i, DaysInMonth(i, 2025), 2025))
  {
  }

  lemma QuarterWindowIs(q: nat)
    requires 1 <= q <= 4
    ensures FullYearWindows[q - 1] == CalendarWindow(3 * q - 2, 3 * q, 2025)
  {
    if q <= 2 { } else { }
  }

  /** Each "monthly" window runs from the first to the last day of one month of 2025, in calendar order. */
  lemma MonthlyAreCalendarMonths()
    ensures |DateWindows["monthly"]| == 12
    ensures forall i :: 1 <= i <= 12 ==> DateWindows["monthly"][i - 1] == CalendarWindow(i, i, 2025)
  {
    forall i | 1 <= i <= 12
      ensures MonthlyWindows[i - 1] == CalendarWindow(i, i, 2025)
    {
      MonthWindowIs(i);
    }
  }

  /** Each quarter mode is one window covering its calendar quarter of 2025, and "full_year" is the four in order. */
  lemma QuartersAreCalendarQuarters()
    ensures |DateWindows["full_year"]| == 4
    ensures forall q :: 1 <= q <= 4 ==> DateWindows["full_year"][q - 1] == CalendarWindow(3 * q - 2, 3 * q, 2025)
    ensures DateWindows["full_year"] == DateWindows["q1"] + DateWindows["q2"] + DateWindows["q3"] + DateWindows["q4"]
  {
    forall q | 1 <= q <= 4
      ensures FullYearWindows[q - 1] == CalendarWindow(3 * q - 2, 3 * q, 2025)
    {
      QuarterWindowIs(q);
    }
  }

  /** The suffix of a calendar window decodes to the shape of its month range. */
  lemma CalendarWindowDecodes(first: nat, last: nat, year: nat)
    requires 1 <= first <= 12 && 1 <= last <= 12 && 1 <= year < 10000
    ensures var w := CalendarWindow(first, last, year);
      DecodeSuffix(Suffix(w.start, w.end)) == Some(WindowShape(Date(first, 1, year), Date(last, DaysInMonth(last, year), year)))
  {
    var w := CalendarWindow(first, last, year);
    ParseFormatDate(Date(first, 1, year));
    ParseFormatDate(Date(last, DaysInMonth(last, year), year));
    SuffixDecodes(w.start, w.end);
  }

  /** The window of quarter `q` of `year` is saved under "_<year>Q<q>", which decodes back to that quarter. */
  lemma QuarterWindowSuffix(year: nat, q: nat)
    requires 1 <= year < 10000 && 1 <= q <= 4
    ensures var w := CalendarWindow(3 * q - 2, 3 * q, year);
      Suffix(w.start, w.end) == "_" + Decimal(year) + ['Q', DigitChar(q)] &&
      DecodeSuffix(Suffix(w.start, w.end)) == Some(Quarter(year, q))
  {
    var w := CalendarWindow(3 * q - 2, 3 * q, year);
    var r := "_" + Decimal(year) + ['Q', DigitChar(q)];
    assert Suffix(w.start, w.end) == r by {
      ParseFormatDate(Date(3 * q - 2, 1, year));
      ParseFormatDate(Date(3 * q, DaysInMonth(3 * q, year), year));
      QuarterSuffix(w.start, w.end, q);
    }
    assert DecodeSuffix(r) == Some(Quarter(year, q)) by {
      DecodeAfterYear(year, ['Q', DigitChar(q)]);
    }
  }

  /** The window of month `m` of `year` is saved under "_<year>M<mm>", which decodes back to that month. */
  lemma MonthWindowSuffix(year: nat, m: nat)
    requires 1 <= year < 10000 && 1 <= m <= 12
    ensures var w := CalendarWindow(m, m, year);
      Suffix(w.start, w.end) == "_" + Decimal(year) + "M" + ZeroPad2(m) &&
      DecodeSuffix(Suffix(w.start, w.end)) == Some(SingleMonth(year, m))
  {
    var w := CalendarWindow(m, m, year);
    var r := "_" + Decimal(year) + "M" + ZeroPad2(m);
    assert Suffix(w.start, w.end) == r by {
      ParseFormatDate(Date(m, 1, year));
      ParseFormatDate(Date(m, DaysInMonth(m, year), year));
      MonthSuffix(w.start, w.end);
    }
    assert DecodeSuffix(r) == Some(SingleMonth(year, m)) by {
      SuffixDecodesMonth(Date(m, 1, year));
    }
  }
}
