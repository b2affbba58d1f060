/**
 * Date windows and the output-file suffix derived from them
 * (`DATE_WINDOWS`, `get_suffix_from_dates`, `get_output_filename`).
 */
module Dates {
  import opened Outcomes
  import opened Text

  datatype Date = Date(month: nat, day: nat, year: nat)

  predicate IsLeapYear(year: nat) {
    year % 4 == 0 && (year % 100 != 0 || year % 400 == 0)
  }

  function DaysInMonth(month: nat, year: nat): nat {
    if month == 2 then (if IsLeapYear(year) then 29 else 28)
    else if month == 4 || month == 6 || month == 9 || month == 11 then 30
    else 31
  }

  /** A calendar date that `datetime` accepts. */
  predicate ValidDate(d: Date) {
    1 <= d.month <= 12 && 1 <= d.day <= DaysInMonth(d.month, d.year) && 1 <= d.year
  }

  /** `datetime.strptime(s, "%m/%d/%Y")` on the zero-padded form MM/DD/YYYY; None where it raises. */
  function ParseDate(s: string): (r: Option<Date>)
    ensures r.Some? ==> ValidDate(r.value)
  {
    if |s| == 10 && s[2] == '/' && s[5] == '/' && AllDigits(s[..2]) && AllDigits(s[3..5]) && AllDigits(s[6..]) then
      var month, day, year := DigitsValue(s[..2]), DigitsValue(s[3..5]), DigitsValue(s[6..]);
      if 1 <= month <= 12 && 1 <= year && 1 <= day <= DaysInMonth(month, year) then Some(Date(month, day, year))
      else None
    else None
  }

  /** The MM/DD/YYYY text of a date (`strftime("%m/%d/%Y")`): the low two, two and four digits of each part. */
  function FormatDate(d: Date): (s: string)
    ensures |s| == 10 && s[2] == '/' && s[5] == '/'
  {
    [DigitChar(d.month / 10 % 10), DigitChar(d.month % 10), '/',
     DigitChar(d.day / 10 % 10), DigitChar(d.day % 10), '/',
     DigitChar(d.year / 1000 % 10), DigitChar(d.year / 100 % 10), DigitChar(d.year / 10 % 10), DigitChar(d.year % 10)]
  }

  lemma TwoDigitsValue(a: char, b: char)
    requires IsDigit(a) && IsDigit(b)
    ensures DigitsValue([a, b]) == 10 * DigitValue(a) + DigitValue(b)
  {
    assert [a, b][..1] == [a];
    assert [a][..0] == [];
    assert DigitsValue([a]) == DigitValue(a);
  }

  lemma FourDigitsValue(a: char, b: char, c: char, e: char)
    requires IsDigit(a) && IsDigit(b) && IsDigit(c) && IsDigit(e)
    ensures DigitsValue([a, b, c, e]) == 1000 * DigitValue(a) + 100 * DigitValue(b) + 10 * DigitValue(c) + DigitValue(e)
  {
    assert [a, b, c, e][..3] == [a, b, c];
    assert [a, b, c][..2] == [a, b];
    TwoDigitsValue(a, b);
  }

  lemma TwoDigitSplit(v: nat)
    requires v < 100
    ensures 10 * (v / 10 % 10) + v % 10 == v
  {
    var t := v / 10;
    assert t < 10;
  }

  lemma FourDigitSplit(v: nat)
    requires v < 10000
    ensures 1000 * (v / 1000 % 10) + 100 * (v / 100 % 10) + 10 * (v / 10 % 10) + v % 10 == v
  {
    var h := v / 100;
    assert v == 100 * h + v % 100;
    TwoDigitSplit(h);
    TwoDigitSplit(v % 100);
    assert h / 10 % 10 == v / 1000 % 10;
    assert h % 10 == v / 100 % 10;
    assert v % 100 / 10 % 10 == v / 10 % 10;
  }

  /** A number below 100 written as two digits reads back as itself. */
  lemma TwoDigitsRead(v: nat)
    requires v < 100
    ensures DigitsValue([DigitChar(v / 10 % 10), DigitChar(v % 10)]) == v
  {
    TwoDigitsValue(DigitChar(v / 10 % 10), DigitChar(v % 10));
    TwoDigitSplit(v);
  }

  /** A number below 10000 written as four digits reads back as itself. */
  lemma FourDigitsRead(v: nat)
    requires v < 10000
    ensures DigitsValue([DigitChar(v / 1000 % 10), DigitChar(v / 100 % 10), DigitChar(v / 10 % 10), DigitChar(v % 10)]) == v
  {
    FourDigitsValue(DigitChar(v / 1000 % 10), DigitChar(v / 100 % 10), DigitChar(v / 10 % 10), DigitChar(v % 10));
    FourDigitSplit(v);
  }

  /** Every valid date of a four-digit year is read back from its MM/DD/YYYY text. */
  lemma ParseFormatDate(d: Date)
    requires ValidDate(d) && d.year < 10000
    ensures ParseDate(FormatDate(d)) == Some(d)
  {
    var s := FormatDate(d);
    assert s[..2] == [DigitChar(d.month / 10 % 10), DigitChar(d.month % 10)];
    assert s[3..5] == [DigitChar(d.day / 10 % 10), DigitChar(d.day % 10)];
    assert s[6..] == [DigitChar(d.year / 1000 % 10), DigitChar(d.year / 100 % 10), DigitChar(d.year / 10 % 10), DigitChar(d.year % 10)];
    TwoDigitsRead(d.month);
    TwoDigitsRead(d.day);
    FourDigitsRead(d.year);
  }

  lemma TwoDigitJoin(x: nat, y: nat)
    requires x < 10 && y < 10
    ensures (10 * x + y) / 10 % 10 == x && (10 * x + y) % 10 == y
  {
  }

  lemma FourDigitJoin(w: nat, x: nat, y: nat, z: nat)
    requires w < 10 && x < 10 && y < 10 && z < 10
    ensures var v := 1000 * w + 100 * x + 10 * y + z;
      v / 1000 % 10 == w && v / 100 % 10 == x && v / 10 % 10 == y && v % 10 == z
  {
    var v := 1000 * w + 100 * x + 10 * y + z;
    var h := 10 * w + x;
    assert v == 100 * h + (10 * y + z);
    assert v / 100 == h;
    assert v % 100 == 10 * y + z;
    assert v / 10 == 10 * h + y;
    assert v / 1000 == h / 10;
    TwoDigitJoin(w, x);
    TwoDigitJoin(y, z);
  }

  /** Two digits read as a number and written out again give the same two characters. */
  lemma TwoDigitsText(a: char, b: char)
    requires IsDigit(a) && IsDigit(b)
    ensures var v := DigitsValue([a, b]); DigitChar(v / 10 % 10) == a && DigitChar(v % 10) == b
  {
    TwoDigitsValue(a, b);
    TwoDigitJoin(DigitValue(a), DigitValue(b));
  }

  /** Four digits read as a number and written out again give the same four characters. */
  lemma FourDigitsText(a: char, b: char, c: char, e: char)
    requires IsDigit(a) && IsDigit(b) && IsDigit(c) && IsDigit(e)
    ensures var v := DigitsValue([a, b, c, e]);
      DigitChar(v / 1000 % 10) == a && DigitChar(v / 100 % 10) == b && DigitChar(v / 10 % 10) == c && DigitChar(v % 10) == e
  {
    FourDigitsValue(a, b, c, e);
    FourDigitJoin(DigitValue(a), DigitValue(b), DigitValue(c), DigitValue(e));
  }

  /** A string that parses is exactly the MM/DD/YYYY text of its date: the format is canonical. */
  lemma FormatParseDate(s: string)
    requires ParseDate(s).Some?
    ensures FormatDate(ParseDate(s).value) == s
  {
    var d := ParseDate(s).value;
    assert s[..2] == [s[0], s[1]] && AllDigits(s[..2]);
    assert s[3..5] == [s[3], s[4]] && AllDigits(s[3..5]);
    assert s[6..] == [s[6], s[7], s[8], s[9]] && AllDigits(s[6..]);
    TwoDigitsText(s[0], s[1]);
    TwoDigitsText(s[3], s[4]);
    FourDigitsText(s[6], s[7], s[8], s[9]);
    var f := FormatDate(d);
    assert forall i :: 0 <= i < 10 ==> f[i] == s[i];
  }

  // ---------------------------------------------------------------------------------------
  // The filename suffix
  // ---------------------------------------------------------------------------------------

  /** One entry of the quarter table: a start month, an end month and the tag. */
  datatype QuarterRange = QuarterRange(startMonth: nat, endMonth: nat, tag: string)

  /** The quarter table, in the order the source iterates it. */
  const QuarterRanges: seq<QuarterRange> := [
    QuarterRange(1, 3, "Q1"),
    QuarterRange(4, 6, "Q2"),
    QuarterRange(7, 9, "Q3"),
    QuarterRange(10, 12, "Q4")
  ]

  /** The label of the first table entry whose months are exactly (startMonth, endMonth). */
  function QuarterLabel(startMonth: nat, endMonth: nat, ranges: seq<QuarterRange>): Option<string> {
    if ranges == [] then None
    else if ranges[0].startMonth == startMonth && ranges[0].endMonth == endMonth then Some(ranges[0].tag)
    else QuarterLabel(startMonth, endMonth, ranges[1..])
  }

  /** `get_suffix_from_dates(start_date, end_date)`. */
  function Suffix(startDate: string, endDate: string): string {
    match (ParseDate(startDate), ParseDate(endDate))
    case (Some(s), Some(e)) =>
      if s.month == e.month then "_" + Decimal(s.year) + "M" + ZeroPad2(s.month)
      else (
        match QuarterLabel(s.month, e.month, QuarterRanges)
        case Some(q) => "_" + Decimal(s.year) + q
        case None => "_" + Decimal(s.year) + "_" + ZeroPad2(s.month) + "to" + ZeroPad2(e.month))
    case _ => ""
  }

  /** The semantic shape a window's suffix encodes. */
  datatype Shape =
    | SingleMonth(year: nat, month: nat)
    | Quarter(year: nat, quarter: nat)
    | MonthSpan(year: nat, fromMonth: nat, toMonth: nat)

  /**
   * The shape of a window, by calendar arithmetic: one month; the three months of a
   * calendar quarter (starting in month 1, 4, 7 or 10); or any other pair of months.
   * The year is always the start date's.
   */
  function WindowShape(s: Date, e: Date): Shape {
    if s.month == e.month then SingleMonth(s.year, s.month)
    else if s.month % 3 == 1 && e.month == s.month + 2 then Quarter(s.year, (s.month + 2) / 3)
    else MonthSpan(s.year, s.month, e.month)
  }

  /** The length of the run of digits at the front of `s`. */
  function DigitRun(s: string): (n: nat)
    ensures n <= |s| && AllDigits(s[..n])
  {
    if |s| > 0 && IsDigit(s[0]) then
      var n := DigitRun(s[1..]);
      assert s[..1 + n] == [s[0]] + s[1..][..n];
      1 + n
    else 0
  }

  /** Reads the part of a suffix after the year. */
  function DecodeTail(year: nat, tail: string): Option<Shape> {
    if |tail| == 3 && tail[0] == 'M' && AllDigits(tail[1..]) then Some(SingleMonth(year, DigitsValue(tail[1..])))
    else if |tail| == 2 && tail[0] == 'Q' && '1' <= tail[1] <= '4' then Some(Quarter(year, DigitValue(tail[1])))
    else if |tail| == 7 && tail[0] == '_' && AllDigits(tail[1..3]) && tail[3..5] == "to" && AllDigits(tail[5..]) then
      Some(MonthSpan(year, DigitsValue(tail[1..3]), DigitsValue(tail[5..])))
    else None
  }

  /** Reads a suffix back: "_", the year's digits, then "Mmm", "Qn" or "_mmtomm". */
  function DecodeSuffix(r: string): Option<Shape> {
    if |r| == 0 || r[0] != '_' then None
    else
      var body := r[1..];
      var k := DigitRun(body);
      if k == 0 then None else DecodeTail(DigitsValue(body[..k]), body[k..])
  }

  lemma {:induction false} DigitRunPrefix(digits: string, tail: string)
    requires AllDigits(digits)
    requires tail == [] || !IsDigit(tail[0])
    ensures DigitRun(digits + tail) == |digits|
  {
    if digits != [] {
      assert (digits + tail)[1..] == digits[1..] + tail;
      DigitRunPrefix(digits[1..], tail);
    } else {
      assert digits + tail == tail;
    }
  }

  lemma DecodeAfterYear(year: nat, tail: string)
    requires tail != [] && !IsDigit(tail[0])
    ensures DecodeSuffix("_" + Decimal(year) + tail) == DecodeTail(year, tail)
  {
    var y := Decimal(year);
    var r := "_" + y + tail;
    assert r[1..] == y + tail;
    DigitRunPrefix(y, tail);
    assert (y + tail)[..|y|] == y;
    assert (y + tail)[|y|..] == tail;
    DecimalValue(year);
  }

  lemma QuarterLabelByArithmetic(sm: nat, em: nat)
    requires 1 <= sm <= 12 && 1 <= em <= 12 && sm != em
    ensures QuarterLabel(sm, em, QuarterRanges) ==
      if sm % 3 == 1 && em == sm + 2 then Some(['Q', DigitChar((sm + 2) / 3)]) else None
  {
    var t0 := QuarterRanges;
    var t1, t2, t3 := t0[1..], t0[2..], t0[3..];
    assert t0[1..] == t1 && t1[1..] == t2 && t2[1..] == t3 && t3[1..] == [];
    assert t1[0] == QuarterRange(4, 6, "Q2") && t2[0] == QuarterRange(7, 9, "Q3") && t3[0] == QuarterRange(10, 12, "Q4");
    assert QuarterLabel(sm, em, t3) == if sm == 10 && em == 12 then Some("Q4") else None;
    assert QuarterLabel(sm, em, t2) == if sm == 7 && em == 9 then Some("Q3") else QuarterLabel(sm, em, t3);
    assert QuarterLabel(sm, em, t1) == if sm == 4 && em == 6 then Some("Q2") else QuarterLabel(sm, em, t2);
    assert QuarterLabel(sm, em, t0) == if sm == 1 && em == 3 then Some("Q1") else QuarterLabel(sm, em, t1);
    assert DigitChar(1) == '1' && DigitChar(2) == '2' && DigitChar(3) == '3' && DigitChar(4) == '4';
  }

  lemma SuffixDecodesMonth(s: Date)
    requires ValidDate(s)
    ensures DecodeSuffix("_" + Decimal(s.year) + "M" + ZeroPad2(s.month)) == Some(SingleMonth(s.year, s.month))
  {
    var tail := "M" + ZeroPad2(s.month);
    ZeroPad2Value(s.month);
    assert "_" + Decimal(s.year) + "M" + ZeroPad2(s.month) == "_" + Decimal(s.year) + tail;
    DecodeAfterYear(s.year, tail);
    assert tail[1..] == ZeroPad2(s.month);
  }

  lemma SuffixDecodesSpan(s: Date, e: Date)
    requires ValidDate(s) && ValidDate(e)
    ensures DecodeSuffix("_" + Decimal(s.year) + "_" + ZeroPad2(s.month) + "to" + ZeroPad2(e.month)) == Some(MonthSpan(s.year, s.month, e.month))
  {
    var tail := "_" + ZeroPad2(s.month) + "to" + ZeroPad2(e.month);
    ZeroPad2Value(s.month);
    ZeroPad2Value(e.month);
    assert "_" + Decimal(s.year) + "_" + ZeroPad2(s.month) + "to" + ZeroPad2(e.month) == "_" + Decimal(s.year) + tail;
    DecodeAfterYear(s.year, tail);
    assert tail[1..3] == ZeroPad2(s.month);
    assert tail[3..5] == "to";
    assert tail[5..] == ZeroPad2(e.month);
  }

  /** Any two dates spanning calendar quarter `q` (first day of its first month to any day of its last) give "_<year>Q<q>". */
  lemma QuarterSuffix(startDate: string, endDate: string, q: nat)
    requires 1 <= q <= 4
    requires ParseDate(startDate).Some? && ParseDate(endDate).Some?
    requires ParseDate(startDate).value.month == 3 * q - 2 && ParseDate(endDate).value.month == 3 * q
    ensures Suffix(startDate, endDate) == "_" + Decimal(ParseDate(startDate).value.year) + ['Q', DigitChar(q)]
  {
    var first, last := 3 * q - 2, 3 * q;
    assert first % 3 == 1 && (first + 2) / 3 == q;
    QuarterLabelByArithmetic(first, last);
  }

  /** Any two dates in the same month give "_<year>M<mm>". */
  lemma MonthSuffix(startDate: string, endDate: string)
    requires ParseDate(startDate).Some? && ParseDate(endDate).Some?
    requires ParseDate(startDate).value.month == ParseDate(endDate).value.month
    ensures Suffix(startDate, endDate) == "_" + Decimal(ParseDate(startDate).value.year) + "M" + ZeroPad2(ParseDate(startDate).value.month)
  {
  }

  /**
   * The suffix rules: an unparseable date gives ""; otherwise the suffix reads back as the
   * window's shape (one month, a calendar quarter, or a month span), always with the
   * start date's year.
   */
  lemma SuffixDecodes(startDate: string, endDate: string)
    ensures ParseDate(startDate).None? || ParseDate(endDate).None? ==> Suffix(startDate, endDate) == ""
    ensures ParseDate(startDate).Some? && ParseDate(endDate).Some? ==>
      DecodeSuffix(Suffix(startDate, endDate)) == Some(WindowShape(ParseDate(startDate).value, ParseDate(endDate).value))
  {
    if ParseDate(startDate).Some? && ParseDate(endDate).Some? {
      var s, e := ParseDate(startDate).value, ParseDate(endDate).value;
      if s.month == e.month {
        SuffixDecodesMonth(s);
      } else {
        QuarterLabelByArithmetic(s.month, e.month);
        if s.month % 3 == 1 && e.month == s.month + 2 {
          var tail := ['Q', DigitChar((s.month + 2) / 3)];
          assert Suffix(startDate, endDate) == "_" + Decimal(s.year) + tail;
          DecodeAfterYear(s.year, tail);
        } else {
          SuffixDecodesSpan(s, e);
        }
      }
    }
  }

  /** `get_output_filename(prefix, suffix)`, with the clock's "%Y%m%d_%H%M" reading as a parameter. */
  function OutputFilename(prefix: string, suffix: string, timestamp: string): (name: string)
    ensures |name| == |prefix| + |suffix| + |timestamp| + 5
    ensures name[..|prefix| + |suffix|] == prefix + suffix
    ensures name[|prefix| + |suffix|..|name| - 4] == "_" + timestamp
    ensures name[|name| - 4..] == ".csv"
  {
    prefix + suffix + "_" + timestamp + ".csv"
  }

  const DefaultPrefix := "vcs_extra_duty_jobs"
}
