/**
 * Calendar values shared by both dashboards: parsed dates and hours, the
 * English month names of `dt.month_name()`, the "%Y-%m" period key written
 * by `strftime` and read by `pd.to_datetime(format="%Y-%m")`, and the
 * single-digit month padding applied to period strings before parsing.
 */
module Calendar {
  import opened Nullable
  import opened Text

  /** Years a pandas timestamp can hold (1677-09-21 to 2262-04-11). */
  type Year = y: int | 1677 <= y <= 2262 witness 2025
  type MonthNumber = m: int | 1 <= m <= 12 witness 1
  type DayOfMonth = d: int | 1 <= d <= 31 witness 1
  type HourOfDay = h: int | 0 <= h <= 23

  datatype Date = Date(year: Year, month: MonthNumber, day: DayOfMonth)

  /** An already-parsed timestamp, at the hour granularity the trading data uses. */
  datatype Timestamp = Timestamp(date: Date, hour: HourOfDay)

  /** Chronological order of dates (`datetime.date` comparison). */
  predicate DateLe(a: Date, b: Date) {
    || a.year < b.year
    || (a.year == b.year && a.month < b.month)
    || (a.year == b.year && a.month == b.month && a.day <= b.day)
  }

  const MonthNames: seq<string> := [
    "January", "February", "March", "April", "May", "June",
    "July", "August", "September", "October", "November", "December"
  ]

  /** `dt.month_name()` in the default English locale. */
  function MonthName(m: MonthNumber): string {
    MonthNames[m - 1]
  }

  lemma MonthNamesDistinct(m: MonthNumber, n: MonthNumber)
    ensures MonthName(m) == MonthName(n) <==> m == n
  {
  }

  /** `strftime("%Y-%m")`: four-digit year, a dash, two-digit month. */
  function FormatYearMonth(year: Year, month: MonthNumber): (s: string)
    ensures |s| == 7 && s[4] == '-'
    ensures AllDigits(s[..4]) && DigitsValue(s[..4]) == year
    ensures AllDigits(s[5..]) && DigitsValue(s[5..]) == month
  {
    NatToStringLength(year, 4);
    NatToStringLength(month, 2);
    var y := ZeroPad(NatToString(year), 4);
    var m := ZeroPad(NatToString(month), 2);
    var s := y + "-" + m;
    assert s[..4] == y && s[5..] == m;
    s
  }

  /** A parsed "%Y-%m" period: the first day of that month. */
  datatype YearMonth = YearMonth(year: Year, month: MonthNumber)

  /** The month's first day is a representable pandas timestamp. */
  predicate InTimestampRange(year: int, month: int) {
    && (year > 1677 || (year == 1677 && month >= 10))
    && (year < 2262 || (year == 2262 && month <= 4))
  }

  /**
   * Coercing period parse with the "%Y-%m" format: a four-digit year,
   * a dash and a two-digit month 01..12 whose first day pandas can represent;
   * anything else is NaT (null).
   */
  function ParseYearMonth(s: string): (r: Option<YearMonth>)
    ensures r.Some? ==> InTimestampRange(r.value.year, r.value.month)
    ensures r.Some? ==> FormatYearMonth(r.value.year, r.value.month) == s
  {
    if |s| == 7 && AllDigits(s[..4]) && s[4] == '-' && AllDigits(s[5..]) then
      var y := DigitsValue(s[..4]);
      var m := DigitsValue(s[5..]);
      if 1 <= m <= 12 && InTimestampRange(y, m) then
        var f := FormatYearMonth(y, m);
        SameDigits(f[..4], s[..4]);
        SameDigits(f[5..], s[5..]);
        assert f == f[..4] + "-" + f[5..];
        assert s == s[..4] + "-" + s[5..];
        Some(YearMonth(y, m))
      else None
    else None
  }

  /** Digit strings of equal length spelling the same number are equal. */
  lemma {:induction false} SameDigits(a: string, b: string)
    requires AllDigits(a) && AllDigits(b) && |a| == |b| && DigitsValue(a) == DigitsValue(b)
    ensures a == b
    decreases |a|
  {
    if a != [] {
      var n := |a|;
      var da := a[n - 1] as int - '0' as int;
      var db := b[n - 1] as int - '0' as int;
      assert DigitsValue(a) == DigitsValue(a[..n - 1]) * 10 + da;
      assert DigitsValue(b) == DigitsValue(b[..n - 1]) * 10 + db;
      LastDigit(DigitsValue(a[..n - 1]), da, DigitsValue(b[..n - 1]), db);
      SameDigits(a[..n - 1], b[..n - 1]);
      assert a == a[..n - 1] + [a[n - 1]] && b == b[..n - 1] + [b[n - 1]];
    }
  }

  /** A number has one decimal last digit and one prefix. */
  lemma LastDigit(q1: nat, d1: int, q2: nat, d2: int)
    requires 0 <= d1 < 10 && 0 <= d2 < 10 && q1 * 10 + d1 == q2 * 10 + d2
    ensures q1 == q2 && d1 == d2
  {
    assert (q1 - q2) * 10 == d2 - d1;
  }

  /** Every representable month survives `strftime("%Y-%m")` followed by parsing. */
  lemma ParseFormatYearMonth(year: Year, month: MonthNumber)
    requires InTimestampRange(year, month)
    ensures ParseYearMonth(FormatYearMonth(year, month)) == Some(YearMonth(year, month))
  {
  }

  /**
   * The regular-expression month padding: a dash and one digit at the
   * end of the string (or just before a final newline, where Python's `$`
   * also matches) get a zero inserted before the digit.
   */
  function PadMonth(s: string): (r: string)
    ensures !SingleDigitMonthEnd(s) ==> r == s
    ensures SingleDigitMonthEnd(s) ==> exists k :: 0 <= k < |s| && IsDigit(s[k]) && r == s[..k] + "0" + s[k..]
    ensures !SingleDigitMonthEnd(r)
  {
    var n := |s|;
    if n >= 2 && s[n - 2] == '-' && IsDigit(s[n - 1]) then
      var r := s[..n - 1] + "0" + s[n - 1..];
      assert r[|r| - 2] == '0' && r[|r| - 1] == s[n - 1];
      r
    else if n >= 3 && s[n - 1] == '\n' && s[n - 3] == '-' && IsDigit(s[n - 2]) then
      var r := s[..n - 2] + "0" + s[n - 2..];
      assert r[|r| - 3] == '0' && r[|r| - 1] == '\n' && r[|r| - 2] == s[n - 2];
      r
    else s
  }

  /** The text ends in a dash and a single digit, possibly followed by a final newline: the pattern `-(\d)$`. */
  predicate SingleDigitMonthEnd(s: string) {
    var n := |s|;
    (n >= 2 && s[n - 2] == '-' && IsDigit(s[n - 1])) ||
    (n >= 3 && s[n - 1] == '\n' && s[n - 3] == '-' && IsDigit(s[n - 2]))
  }

  /** Padding an already-padded period changes nothing. */
  lemma PadMonthIdempotent(s: string)
    ensures PadMonth(PadMonth(s)) == PadMonth(s)
  {
  }

  /** A single-digit month "YYYY-d" becomes "YYYY-0d" and then parses to that month. */
  lemma PadThenParse(year: Year, month: MonthNumber)
    requires month <= 9 && InTimestampRange(year, month)
    ensures var s := FormatYearMonth(year, month)[..5] + [Digit(month)];
      PadMonth(s) == FormatYearMonth(year, month) &&
      ParseYearMonth(PadMonth(s)) == Some(YearMonth(year, month))
  {
    var f := FormatYearMonth(year, month);
    var s := f[..5] + [Digit(month)];
    assert f[5..] == "0" + [Digit(month)] by {
      var tail := f[5..];
      assert DigitsValue(tail) == DigitsValue(tail[..1]) * 10 + (tail[1] as int - '0' as int);
      assert tail[..1][..0] == [];
      assert tail[0] == '0' && tail[1] == Digit(month);
    }
    assert PadMonth(s) == s[..5] + "0" + s[5..];
    assert f == f[..5] + f[5..];
    ParseFormatYearMonth(year, month);
  }

  /** "2025-1" is padded to "2025-01"; "2025-12" is left alone. */
  lemma PadMonthExamples()
    ensures PadMonth("2025-1") == "2025-01"
    ensures PadMonth("2025-12") == "2025-12"
  {
  }

  /** The padded "2025-1" parses to January 2025. */
  lemma PadMonthParseExample()
    ensures ParseYearMonth(PadMonth("2025-1")) == Some(YearMonth(2025, 1))
  {
    JanuaryText();
    PadMonthExamples();
    ParseFormatYearMonth(2025, 1);
  }

  /** January 2025 is written "2025-01". */
  lemma JanuaryText()
    ensures FormatYearMonth(2025, 1) == "2025-01"
  {
    assert NatToString(2) == "2";
    assert NatToString(20) == "20";
    assert NatToString(202) == "202";
    assert NatToString(2025) == "2025";
    assert NatToString(1) == "1";
    assert ZeroPad("1", 2) == "01";
  }
}
