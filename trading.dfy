/**
 * The interconnector trading dashboard: ingestion of hourly trade tables,
 * interconnector grouping, the sidebar row filter, the threshold measures,
 * the daily and monthly breakdowns and the 50 MW utilisation buckets.
 */
module Trading {
  import opened Nullable
  import opened Tables
  import opened Text
  import opened Calendar

  /** The columns a trade table must have to be loaded. */
  const RequiredColumns: set<string> := {
    "HourStartLocal", "Interconnector", "Trade_Abs_MW",
    "Trade_Direction", "IsPartialHour", "Trade_Bucket_All"
  }

  /**
   * One row of a trade table as read. `hourStartLocal` is the timestamp
   * `pd.to_datetime(..., errors="coerce", utc=True)` produced (None for NaT).
   */
  datatype RawTrade = RawTrade(
    hourStartLocal: Option<Timestamp>,
    interconnector: Option<string>,
    tradeAbsMw: Option<real>,
    tradeDirection: Option<string>,
    isPartialHour: Option<bool>,
    tradeBucketAll: Option<string>)

  /** A source handed to the loader: one that fails to read, or a table with its column names. */
  datatype Source = Unreadable | Table(columns: set<string>, rows: seq<RawTrade>)

  /** A source that is read and has every required column is kept. */
  predicate Survives(s: Source) {
    s.Table? && RequiredColumns <= s.columns
  }

  /** The rows a source adds to the concatenation. */
  function Contribution(s: Source): seq<RawTrade> {
    if Survives(s) then s.rows else []
  }

  /** `pd.concat` of the surviving sources, in input order. */
  function Concatenated(sources: seq<Source>): seq<RawTrade> {
    if sources == [] then []
    else Concatenated(sources[..|sources| - 1]) + Contribution(sources[|sources| - 1])
  }

  /** Concatenating two runs of sources is concatenating their tables. */
  lemma {:induction false} ConcatenatedAppend(a: seq<Source>, b: seq<Source>)
    ensures Concatenated(a + b) == Concatenated(a) + Concatenated(b)
    decreases |b|
  {
    if b == [] {
      assert a + b == a;
    } else {
      var b' := b[..|b| - 1];
      assert (a + b)[..|a + b| - 1] == a + b';
      ConcatenatedAppend(a, b');
    }
  }

  /** Number of rows of the surviving sources. */
  function RowCount(sources: seq<Source>): nat {
    if sources == [] then 0
    else (if Survives(sources[0]) then |sources[0].rows| else 0) + RowCount(sources[1..])
  }

  /** The concatenation has exactly as many rows as the surviving sources together. */
  lemma {:induction false} ConcatenatedLength(sources: seq<Source>)
    ensures |Concatenated(sources)| == RowCount(sources)
  {
    if sources != [] {
      ConcatenatedLength(sources[1..]);
      ConcatenatedAppend([sources[0]], sources[1..]);
      assert [sources[0]] + sources[1..] == sources;
      assert Concatenated([sources[0]]) == Contribution(sources[0]) by {
        assert [sources[0]][..0] == [];
      }
    }
  }

  /** The key fields `dropna(subset=[...])` requires to be present. */
  predicate Complete(r: RawTrade) {
    r.hourStartLocal.Some? && r.tradeAbsMw.Some? && r.interconnector.Some?
  }

  /** `map_group`: any name containing "IFA" after upper-casing belongs to group "IFA". */
  function MapGroup(name: string): (g: string)
    ensures g == "IFA" || g == name
    ensures g == "IFA" <==> Contains(Upper(name), "IFA")
  {
    assert Upper("IFA") == "IFA";
    assert "IFA" <= Upper("IFA")[0..];
    if Contains(Upper(name), "IFA") then "IFA" else name
  }

  lemma MapGroupIdempotent(name: string)
    ensures MapGroup(MapGroup(name)) == MapGroup(name)
  {
    if Contains(Upper(name), "IFA") {
      assert Upper("IFA") == "IFA";
      assert "IFA" <= Upper("IFA")[0..];
    }
  }

  /** "ifa2" is grouped as "IFA"; "NSL" is its own group. */
  lemma MapGroupExamples()
    ensures MapGroup("ifa2") == "IFA"
    ensures MapGroup("NSL") == "NSL"
  {
    assert Upper("ifa2") == "IFA2";
    assert "IFA" <= Upper("ifa2")[0..];
    var u := Upper("NSL");
    assert u == "NSL";
    forall i | 0 <= i <= |u| ensures !("IFA" <= u[i..]) {
      if i < |u| {
        assert u[i..][0] != 'I';
      }
    }
  }

  /** A loaded trade with its derived calendar and group columns. */
  datatype Fact = Fact(
    hourStartLocal: Timestamp,
    interconnector: string,
    tradeAbsMw: real,
    tradeDirection: Option<string>,
    isPartialHour: Option<bool>,
    tradeBucketAll: Option<string>,
    date: Date,
    hour: HourOfDay,
    year: Year,
    month: MonthNumber,
    monthName: string,
    yearMonth: string,
    interconnectorGroup: string)

  /** The derived columns agree with the timestamp and the interconnector name. */
  predicate Consistent(f: Fact) {
    && f.date == f.hourStartLocal.date
    && f.hour == f.hourStartLocal.hour
    && f.year == f.date.year
    && f.month == f.date.month
    && f.monthName == MonthName(f.month)
    && f.yearMonth == FormatYearMonth(f.year, f.month)
    && f.interconnectorGroup == MapGroup(f.interconnector)
  }

  /** The derived columns of one complete row (`.dt.date`, `.dt.hour`, ..., `map_group`). */
  function Derive(r: RawTrade): (f: Fact)
    requires Complete(r)
    ensures Consistent(f)
  {
    var ts := r.hourStartLocal.value;
    var name := r.interconnector.value;
    Fact(ts, name, r.tradeAbsMw.value, r.tradeDirection, r.isPartialHour, r.tradeBucketAll,
      ts.date, ts.hour, ts.date.year, ts.date.month, MonthName(ts.date.month),
      FormatYearMonth(ts.date.year, ts.date.month), MapGroup(name))
  }

  /** Derived rows of a table whose rows are all complete, in order. */
  function DeriveAll(rows: seq<RawTrade>): (facts: seq<Fact>)
    requires forall i :: 0 <= i < |rows| ==> Complete(rows[i])
    ensures |facts| == |rows|
    ensures forall i :: 0 <= i < |rows| ==> facts[i] == Derive(rows[i])
  {
    seq(|rows|, i requires 0 <= i < |rows| => Derive(rows[i]))
  }

  /** The table `load_and_transform_data` returns. */
  function Facts(sources: seq<Source>): seq<Fact> {
    DeriveAll(Where(Concatenated(sources), Complete))
  }

  /**
   * `load_and_transform_data`: keep each source that reads and has the
   * required columns, concatenate, drop rows with a null key, derive columns.
   */
  method LoadAndTransformData(sources: seq<Source>) returns (factTrades: seq<Fact>)
    ensures factTrades == Facts(sources)
  {
    var allDfs: seq<seq<RawTrade>> := [];
    var all: seq<RawTrade> := [];
    var i := 0;
    while i < |sources|
      invariant 0 <= i <= |sources|
      invariant all == Concatenated(sources[..i])
      invariant allDfs == [] ==> all == []
    {
      var source := sources[i];
      if source.Table? && RequiredColumns <= source.columns {
        allDfs := allDfs + [source.rows];
        all := all + source.rows;
      }
      assert sources[..i + 1][..i] == sources[..i];
      i := i + 1;
    }
    assert sources[..i] == sources;
    if allDfs == [] {
      return [];
    }
    var kept := Where(all, Complete);
    factTrades := DeriveAll(kept);
  }

  /** Loading runs of sources one after the other concatenates their tables: order kept, skips local. */
  lemma FactsAppend(a: seq<Source>, b: seq<Source>)
    ensures Facts(a + b) == Facts(a) + Facts(b)
  {
    ConcatenatedAppend(a, b);
    WhereAppend(Concatenated(a), Concatenated(b), Complete);
  }

  /** A single source contributes its complete rows when it survives, and nothing otherwise. */
  lemma FactsOfOne(s: Source)
    ensures Survives(s) ==> Facts([s]) == DeriveAll(Where(s.rows, Complete))
    ensures !Survives(s) ==> Facts([s]) == []
  {
    assert [s][..0] == [];
    assert Concatenated([s]) == Contribution(s);
  }

  /** When no source survives the result is the empty table. */
  lemma {:induction false} NoSurvivorNoRows(sources: seq<Source>)
    requires forall i :: 0 <= i < |sources| ==> !Survives(sources[i])
    ensures Facts(sources) == []
  {
    if sources != [] {
      var init := sources[..|sources| - 1];
      NoSurvivorNoRows(init);
      assert sources == init + [sources[|sources| - 1]];
      FactsAppend(init, [sources[|sources| - 1]]);
      FactsOfOne(sources[|sources| - 1]);
    }
  }

  /**
   * The loaded table holds one consistent row per complete row of the
   * concatenation, and no more than there were rows to begin with.
   */
  lemma FactsRows(sources: seq<Source>)
    ensures |Facts(sources)| <= RowCount(sources)
    ensures forall i :: 0 <= i < |Facts(sources)| ==> Consistent(Facts(sources)[i])
    ensures forall r :: r in Concatenated(sources) && Complete(r) ==> Derive(r) in Facts(sources)
    ensures forall f :: f in Facts(sources) ==> exists r :: r in Concatenated(sources) && Complete(r) && f == Derive(r)
  {
    ConcatenatedLength(sources);
    var all := Concatenated(sources);
    var kept := Where(all, Complete);
    WhereFrom(all, Complete);
    KeptDerived(all, kept, Facts(sources));
  }

  /** Deriving every kept row gives a fact for each kept row and no other. */
  lemma KeptDerived(all: seq<RawTrade>, kept: seq<RawTrade>, facts: seq<Fact>)
    requires kept == Where(all, Complete) && facts == DeriveAll(kept)
    requires forall k :: 0 <= k < |kept| ==> kept[k] in all
    ensures forall r :: r in all && Complete(r) ==> Derive(r) in facts
    ensures forall f :: f in facts ==> exists r :: r in all && Complete(r) && f == Derive(r)
  {
    forall r | r in all && Complete(r) ensures Derive(r) in facts {
      var k :| 0 <= k < |kept| && kept[k] == r;
      assert facts[k] == Derive(r);
    }
    forall f | f in facts ensures exists r :: r in all && Complete(r) && f == Derive(r) {
      var k :| 0 <= k < |facts| && facts[k] == f;
      assert kept[k] in all && Complete(kept[k]) && f == Derive(kept[k]);
    }
  }

  /** The date filter, active only for a two-element range; both ends inclusive. */
  predicate InDateRange(f: Fact, dr: seq<Date>) {
    |dr| == 2 ==> DateLe(dr[0], f.date) && DateLe(f.date, dr[1])
  }

  /** Partial hours are removed unless they are included; a null flag is not `False`. */
  predicate PartialOk(f: Fact, incPartial: bool) {
    !incPartial ==> f.isPartialHour == Some(false)
  }

  /** "Import" and "Export" keep only that direction; any other mode keeps all rows. */
  predicate DirectionOk(f: Fact, dirMode: string) {
    && (dirMode == "Import" ==> f.tradeDirection == Some("Import"))
    && (dirMode == "Export" ==> f.tradeDirection == Some("Export"))
  }

  /** `apply_filters`' row condition: every active filter holds. */
  predicate Keep(f: Fact, dr: seq<Date>, groupsSel: seq<string>, icsSel: seq<string>, dirMode: string, incPartial: bool) {
    && InDateRange(f, dr)
    && f.interconnectorGroup in groupsSel
    && f.interconnector in icsSel
    && PartialOk(f, incPartial)
    && DirectionOk(f, dirMode)
  }

  /** The rows `apply_filters` keeps, in their original order. */
  function FilterRows(df: seq<Fact>, dr: seq<Date>, groupsSel: seq<string>, icsSel: seq<string>, dirMode: string, incPartial: bool): seq<Fact> {
    Where(df, (f: Fact) => Keep(f, dr, groupsSel, icsSel, dirMode, incPartial))
  }

  /**
   * `apply_filters`: narrows a copy of the table mask by mask; the result is
   * the single conjunctive filter.
   */
  method ApplyFilters(df: seq<Fact>, dr: seq<Date>, groupsSel: seq<string>, icsSel: seq<string>, dirMode: string, incPartial: bool)
    returns (tempDf: seq<Fact>)
    ensures tempDf == FilterRows(df, dr, groupsSel, icsSel, dirMode, incPartial)
  {
    // `sofar` is the conjunction of the filters applied so far: tempDf == Where(df, sofar).
    ghost var sofar: Fact -> bool := (f: Fact) => InDateRange(f, dr);
    tempDf := df;
    if |dr| == 2 {
      var lo, hi := dr[0], dr[1];
      tempDf := Where(tempDf, (f: Fact) => DateLe(lo, f.date) && DateLe(f.date, hi));
      WhereSameMask(df, (f: Fact) => DateLe(lo, f.date) && DateLe(f.date, hi), sofar);
    } else {
      WhereAll(df, sofar);
    }

    ghost var next: Fact -> bool := (f: Fact) => InDateRange(f, dr) && f.interconnectorGroup in groupsSel;
    WhereWhere(df, sofar, (f: Fact) => f.interconnectorGroup in groupsSel, next);
    tempDf := Where(tempDf, (f: Fact) => f.interconnectorGroup in groupsSel);
    sofar := next;

    next := (f: Fact) => InDateRange(f, dr) && f.interconnectorGroup in groupsSel && f.interconnector in icsSel;
    WhereWhere(df, sofar, (f: Fact) => f.interconnector in icsSel, next);
    tempDf := Where(tempDf, (f: Fact) => f.interconnector in icsSel);
    sofar := next;

    next := (f: Fact) => InDateRange(f, dr) && f.interconnectorGroup in groupsSel && f.interconnector in icsSel
      && PartialOk(f, incPartial);
    if !incPartial {
      WhereWhere(df, sofar, (f: Fact) => f.isPartialHour == Some(false), next);
      tempDf := Where(tempDf, (f: Fact) => f.isPartialHour == Some(false));
    } else {
      WhereSameMask(df, sofar, next);
    }
    sofar := next;

    next := (f: Fact) => Keep(f, dr, groupsSel, icsSel, dirMode, incPartial);
    if dirMode == "Import" {
      WhereWhere(df, sofar, (f: Fact) => f.tradeDirection == Some("Import"), next);
      tempDf := Where(tempDf, (f: Fact) => f.tradeDirection == Some("Import"));
    } else if dirMode == "Export" {
      WhereWhere(df, sofar, (f: Fact) => f.tradeDirection == Some("Export"), next);
      tempDf := Where(tempDf, (f: Fact) => f.tradeDirection == Some("Export"));
    } else {
      WhereSameMask(df, sofar, next);
    }
  }

  /** The filtered table is an order-preserving selection of the input rows. */
  lemma FilterRowsSubsequence(df: seq<Fact>, dr: seq<Date>, groupsSel: seq<string>, icsSel: seq<string>, dirMode: string, incPartial: bool)
    ensures Subsequence(FilterRows(df, dr, groupsSel, icsSel, dirMode, incPartial), df)
  {
    WhereIsSubsequence(df, (f: Fact) => Keep(f, dr, groupsSel, icsSel, dirMode, incPartial));
  }

  /** Filtering twice with the same arguments is filtering once. */
  lemma FilterRowsIdempotent(df: seq<Fact>, dr: seq<Date>, groupsSel: seq<string>, icsSel: seq<string>, dirMode: string, incPartial: bool)
    ensures var once := FilterRows(df, dr, groupsSel, icsSel, dirMode, incPartial);
      FilterRows(once, dr, groupsSel, icsSel, dirMode, incPartial) == once
  {
    WhereIdempotent(df, (f: Fact) => Keep(f, dr, groupsSel, icsSel, dirMode, incPartial));
  }

  /** An empty group or interconnector selection leaves no rows. */
  lemma EmptySelectionNoRows(df: seq<Fact>, dr: seq<Date>, groupsSel: seq<string>, icsSel: seq<string>, dirMode: string, incPartial: bool)
    requires groupsSel == [] || icsSel == []
    ensures FilterRows(df, dr, groupsSel, icsSel, dirMode, incPartial) == []
  {
    WhereNone(df, (f: Fact) => Keep(f, dr, groupsSel, icsSel, dirMode, incPartial));
  }

  /** With no date range, every group and interconnector, partial hours and "Both", nothing is removed. */
  lemma PermissiveFilterKeepsAll(df: seq<Fact>, dr: seq<Date>, groupsSel: seq<string>, icsSel: seq<string>, dirMode: string)
    requires |dr| != 2 && dirMode != "Import" && dirMode != "Export"
    requires forall i :: 0 <= i < |df| ==> df[i].interconnectorGroup in groupsSel && df[i].interconnector in icsSel
    ensures FilterRows(df, dr, groupsSel, icsSel, dirMode, true) == df
  {
    WhereAll(df, (f: Fact) => Keep(f, dr, groupsSel, icsSel, dirMode, true));
  }

  /** A row's MW, date, hour, timestamp and month key, as column selectors. */
  function Mw(f: Fact): real { f.tradeAbsMw }
  function DateOf(f: Fact): Date { f.date }
  function HourOf(f: Fact): int { f.hour }
  function StampOf(f: Fact): Timestamp { f.hourStartLocal }
  function MonthKey(f: Fact): (int, string) { (f.month, f.monthName) }

  /** The rows whose absolute traded MW is strictly above the threshold. */
  function Above(df: seq<Fact>, threshold: real): seq<Fact> {
    Where(df, (f: Fact) => f.tradeAbsMw > threshold)
  }

  /** The five KPIs of `get_measures`. */
  datatype Measures = Measures(
    icHoursAbove: nat,
    networkHoursAbove: nat,
    daysAbove: nat,
    totalEnergyMwh: real,
    avgPowerMw: real)

  /**
   * `get_measures`: over the rows above the threshold, the row count, the
   * distinct timestamps, the distinct dates, the MW sum and the MW mean
   * (0 when no row qualifies).
   */
  function GetMeasures(df: seq<Fact>, threshold: real): (m: Measures)
    // interconnector-hours: one per row above the threshold
    ensures m.icHoursAbove == |Above(df, threshold)| == |BreachRows(df, threshold)|
    // network hours and days: distinct timestamps and dates among those rows
    ensures m.networkHoursAbove == |BreachStamps(df, threshold)|
    ensures m.daysAbove == |BreachDates(df, threshold)|
    ensures m.networkHoursAbove <= m.icHoursAbove && m.daysAbove <= m.icHoursAbove
    // energy: the MW sum of those rows; mean power: energy per interconnector-hour
    ensures m.totalEnergyMwh == Sum(Above(df, threshold), Mw)
    ensures m.icHoursAbove > 0 ==> m.avgPowerMw == m.totalEnergyMwh / m.icHoursAbove as real
    ensures m.icHoursAbove == 0 ==> m.totalEnergyMwh == 0.0 && m.avgPowerMw == 0.0
    ensures m.icHoursAbove > 0 ==> m.avgPowerMw > threshold
  {
    var subset := Above(df, threshold);
    assert subset != [] ==> MeanOrZero(subset, Mw) > threshold by {
      if subset != [] {
        MeanAbove(subset, Mw, threshold);
      }
    }
    MeasuresCounts(df, threshold);
    Measures(|subset|, DistinctCount(subset, StampOf), DistinctCount(subset, DateOf), Sum(subset, Mw), MeanOrZero(subset, Mw))
  }

  /** Positions of the rows above the threshold. */
  function BreachRows(df: seq<Fact>, threshold: real): set<int> {
    Positions(df, (f: Fact) => f.tradeAbsMw > threshold)
  }

  /** Timestamps at which some row is above the threshold. */
  function BreachStamps(df: seq<Fact>, threshold: real): set<Timestamp> {
    KeysWhere(df, (f: Fact) => f.tradeAbsMw > threshold, StampOf)
  }

  /** Dates on which some row is above the threshold. */
  function BreachDates(df: seq<Fact>, threshold: real): set<Date> {
    KeysWhere(df, (f: Fact) => f.tradeAbsMw > threshold, DateOf)
  }

  /** The row count and the distinct stamps and dates of the rows above the threshold, by position. */
  lemma MeasuresCounts(df: seq<Fact>, threshold: real)
    ensures |Above(df, threshold)| == |BreachRows(df, threshold)|
    ensures DistinctKeys(Above(df, threshold), StampOf) == BreachStamps(df, threshold)
    ensures DistinctKeys(Above(df, threshold), DateOf) == BreachDates(df, threshold)
  {
    var p := (f: Fact) => f.tradeAbsMw > threshold;
    WhereCount(df, p);
    WhereKeys(df, p, StampOf);
    WhereKeys(df, p, DateOf);
  }

  /**
   * Two interconnectors above the threshold in the same hour are two
   * interconnector-hours but one network hour, on one day.
   */
  lemma OneHourTwoInterconnectors(f: Fact, g: Fact, threshold: real)
    requires f.interconnector != g.interconnector
    requires f.tradeAbsMw > threshold && g.tradeAbsMw > threshold
    requires g.hourStartLocal == f.hourStartLocal && g.date == f.date
    ensures GetMeasures([f, g], threshold).icHoursAbove == 2
    ensures GetMeasures([f, g], threshold).networkHoursAbove == 1
    ensures GetMeasures([f, g], threshold).daysAbove == 1
  {
    BothAbove(f, g, threshold);
    assert DistinctKeys([f, g], StampOf) == {f.hourStartLocal};
    assert DistinctKeys([f, g], DateOf) == {f.date};
  }

  /**
   * Row counts and energy add up over two tables, while distinct counts
   * (network hours, days) are at most the sum of the parts.
   */
  lemma MeasuresOfConcatenation(a: seq<Fact>, b: seq<Fact>, threshold: real)
    ensures var ma, mb, mab := GetMeasures(a, threshold), GetMeasures(b, threshold), GetMeasures(a + b, threshold);
      && mab.icHoursAbove == ma.icHoursAbove + mb.icHoursAbove
      && mab.totalEnergyMwh == ma.totalEnergyMwh + mb.totalEnergyMwh
      && mab.networkHoursAbove <= ma.networkHoursAbove + mb.networkHoursAbove
      && mab.daysAbove <= ma.daysAbove + mb.daysAbove
  {
    var p := (f: Fact) => f.tradeAbsMw > threshold;
    WhereAppend(a, b, p);
    SumAppend(Above(a, threshold), Above(b, threshold), Mw);
    DistinctKeysAppend(Above(a, threshold), Above(b, threshold), StampOf);
    DistinctKeysAppend(Above(a, threshold), Above(b, threshold), DateOf);
  }

  /**
   * When each row's date is its timestamp's date, as on a loaded table,
   * active days never exceed network hours.
   */
  lemma DaysAtMostNetworkHours(df: seq<Fact>, threshold: real)
    requires forall i :: 0 <= i < |df| ==> df[i].date == df[i].hourStartLocal.date
    ensures GetMeasures(df, threshold).daysAbove <= GetMeasures(df, threshold).networkHoursAbove
  {
    var subset := Above(df, threshold);
    var stamps := DistinctKeys(subset, StampOf);
    var days := DistinctKeys(subset, DateOf);
    WhereFrom(df, (f: Fact) => f.tradeAbsMw > threshold);
    forall d | d in days ensures exists t :: t in stamps && t.date == d {
      var i :| 0 <= i < |subset| && subset[i].date == d;
      assert subset[i] in df;
      assert StampOf(subset[i]) in stamps;
    }
    ImageSize(stamps, days, (t: Timestamp) => t.date);
  }

  /** The rows of `rows` on date `d`. */
  function OnDate(rows: seq<Fact>, d: Date): seq<Fact> {
    Where(rows, (f: Fact) => f.date == d)
  }

  /** The rows of `rows` in month `key` (month number and name). */
  function InMonth(rows: seq<Fact>, key: (int, string)): seq<Fact> {
    Where(rows, (f: Fact) => MonthKey(f) == key)
  }

  /** The distinct hours of `rows` falling on `d`: the per-date distinct count of hours for one date. */
  function HoursOn(rows: seq<Fact>, d: Date): (hours: set<int>)
    ensures hours == KeysWhere(rows, (f: Fact) => f.date == d, HourOf)
    ensures |hours| <= 24 && |hours| <= |OnDate(rows, d)|
    ensures d in DistinctKeys(rows, DateOf) ==> |hours| >= 1
  {
    var day := OnDate(rows, d);
    var hours := DistinctKeys(day, HourOf);
    WhereKeys(rows, (f: Fact) => f.date == d, HourOf);
    BoundedSetSize(hours, 24);
    DayHasHour(rows, d);
    hours
  }

  /** A date present in `rows` has at least one hour. */
  lemma DayHasHour(rows: seq<Fact>, d: Date)
    ensures d in DistinctKeys(rows, DateOf) ==> |DistinctKeys(OnDate(rows, d), HourOf)| >= 1
  {
    if d in DistinctKeys(rows, DateOf) {
      var day := OnDate(rows, d);
      var i :| 0 <= i < |rows| && DateOf(rows[i]) == d;
      var k :| 0 <= k < |day| && day[k] == rows[i];
      assert HourOf(day[k]) in DistinctKeys(day, HourOf);
    }
  }

  /** Per-date coverage: distinct active hours and the MW sum of that date. */
  datatype DayAgg = DayAgg(hours: nat, capacityMw: real)

  /** Daily coverage of rows already above the threshold, one entry per date present. */
  function DailyCoverage(rows: seq<Fact>): (m: map<Date, DayAgg>)
    ensures m.Keys == DistinctKeys(rows, DateOf)
    ensures forall d :: d in m ==> 1 <= m[d].hours <= 24
  {
    var dates := DistinctKeys(rows, DateOf);
    map d | d in dates :: DayAgg(|HoursOn(rows, d)|, Sum(OnDate(rows, d), Mw))
  }

  /** Bar chart of active hours per day (line 409): one bar per date with a row above the threshold. */
  function DailyHours(df: seq<Fact>, threshold: real): (m: map<Date, DayAgg>)
    ensures m.Keys == BreachDates(df, threshold)
    ensures forall d :: d in m ==> 1 <= m[d].hours <= 24
  {
    MeasuresCounts(df, threshold);
    DailyCoverage(Above(df, threshold))
  }

  /** Daily breakdown inside the chosen month (lines 507-510). */
  function MonthDaily(df: seq<Fact>, threshold: real, monthName: string): map<Date, DayAgg> {
    DailyCoverage(Above(Where(df, (f: Fact) => f.monthName == monthName), threshold))
  }

  /**
   * On a table whose month names agree with the dates, the breakdown of a
   * month lists exactly that month's days of the full-year chart, with the
   * same hours and capacity.
   */
  lemma MonthDailyAgrees(df: seq<Fact>, threshold: real, name: string)
    requires forall i :: 0 <= i < |df| ==> df[i].monthName == MonthName(df[i].date.month)
    ensures forall d :: d in MonthDaily(df, threshold, name) <==> d in DailyHours(df, threshold) && MonthName(d.month) == name
    ensures forall d :: d in MonthDaily(df, threshold, name) ==> MonthDaily(df, threshold, name)[d] == DailyHours(df, threshold)[d]
  {
    var monthRows := Above(Where(df, (f: Fact) => f.monthName == name), threshold);
    var yearRows := Above(df, threshold);
    forall d | d in DistinctKeys(monthRows, DateOf) ensures MonthName(d.month) == name {
      var i :| 0 <= i < |monthRows| && DateOf(monthRows[i]) == d;
      MonthRowsNamed(df, threshold, name, monthRows[i]);
    }
    forall d: Date | MonthName(d.month) == name
      ensures OnDate(monthRows, d) == OnDate(yearRows, d)
      ensures d in DistinctKeys(monthRows, DateOf) <==> d in DistinctKeys(yearRows, DateOf)
    {
      OnDateOfMonth(df, threshold, name, d);
      DateKeyIff(monthRows, d);
      DateKeyIff(yearRows, d);
    }
  }

  /** A date present in a table is one with rows on it. */
  lemma DateKeyIff(rows: seq<Fact>, d: Date)
    ensures d in DistinctKeys(rows, DateOf) <==> |OnDate(rows, d)| > 0
  {
    var day := OnDate(rows, d);
    if d in DistinctKeys(rows, DateOf) {
      var i :| 0 <= i < |rows| && DateOf(rows[i]) == d;
      assert rows[i] in day;
    }
    if |day| > 0 {
      WhereFrom(rows, (f: Fact) => f.date == d);
      var i :| 0 <= i < |rows| && rows[i] == day[0];
      assert DateOf(rows[i]) == d;
    }
  }

  /** The rows of a month's breakdown are rows of that month. */
  lemma MonthRowsNamed(df: seq<Fact>, threshold: real, name: string, r: Fact)
    requires forall i :: 0 <= i < |df| ==> df[i].monthName == MonthName(df[i].date.month)
    requires r in Above(Where(df, (f: Fact) => f.monthName == name), threshold)
    ensures r.monthName == name && name == MonthName(r.date.month)
  {
    var named := Where(df, (f: Fact) => f.monthName == name);
    WhereMember(named, (f: Fact) => f.tradeAbsMw > threshold, r);
    WhereMember(df, (f: Fact) => f.monthName == name, r);
    NamedRow(df, r);
  }

  lemma NamedRow(df: seq<Fact>, r: Fact)
    requires forall i :: 0 <= i < |df| ==> df[i].monthName == MonthName(df[i].date.month)
    requires r in df
    ensures r.monthName == MonthName(r.date.month)
  {
    var k :| 0 <= k < |df| && df[k] == r;
  }

  /** On a day of the chosen month, the month's rows of that day are the year's rows of that day. */
  lemma OnDateOfMonth(df: seq<Fact>, threshold: real, name: string, d: Date)
    requires forall i :: 0 <= i < |df| ==> df[i].monthName == MonthName(df[i].date.month)
    requires MonthName(d.month) == name
    ensures OnDate(Above(Where(df, (f: Fact) => f.monthName == name), threshold), d) == OnDate(Above(df, threshold), d)
  {
    var named := (f: Fact) => f.monthName == name;
    var above := (f: Fact) => f.tradeAbsMw > threshold;
    var onDay := (f: Fact) => f.date == d;
    var namedAbove := (f: Fact) => named(f) && above(f);
    var namedAboveOnDay := (f: Fact) => namedAbove(f) && onDay(f);
    var aboveOnDay := (f: Fact) => above(f) && onDay(f);
    WhereWhere(df, named, above, namedAbove);
    WhereWhere(df, namedAbove, onDay, namedAboveOnDay);
    WhereWhere(df, above, onDay, aboveOnDay);
    WhereSameMask(df, namedAboveOnDay, aboveOnDay);
  }

  /** Per-month row count and MW sum. */
  datatype MonthAgg = MonthAgg(hoursAboveLimit: nat, totalCapacityMw: real)

  /** Row count and MW sum per (month number, month name) over the rows above the threshold (lines 468-471). */
  function MonthlyBreakdown(df: seq<Fact>, threshold: real): (m: map<(int, string), MonthAgg>)
    ensures m.Keys == DistinctKeys(Above(df, threshold), MonthKey)
    ensures forall k :: k in m ==> 1 <= m[k].hoursAboveLimit <= |Above(df, threshold)|
  {
    var rows := Above(df, threshold);
    var keys := DistinctKeys(rows, MonthKey);
    MonthsNonEmpty(rows);
    map k | k in keys :: MonthAgg(|InMonth(rows, k)|, Sum(InMonth(rows, k), Mw))
  }

  /** Every month present has at least one row. */
  lemma MonthsNonEmpty(rows: seq<Fact>)
    ensures forall k :: k in DistinctKeys(rows, MonthKey) ==> 1 <= |InMonth(rows, k)| <= |rows|
  {
    forall k | k in DistinctKeys(rows, MonthKey) ensures 1 <= |InMonth(rows, k)| <= |rows| {
      var i :| 0 <= i < |rows| && MonthKey(rows[i]) == k;
      WhereNonEmpty(rows, (f: Fact) => MonthKey(f) == k, i);
    }
  }

  /**
   * The two counting rules: when the month columns agree with the date, as
   * on a loaded table, a day's distinct active hours never exceed the row
   * count of its month.
   */
  lemma DailyAtMostMonthly(df: seq<Fact>, threshold: real, d: Date)
    requires forall i :: 0 <= i < |df| ==> df[i].month == df[i].date.month && df[i].monthName == MonthName(df[i].month)
    requires d in DailyHours(df, threshold)
    ensures var key := (d.month as int, MonthName(d.month));
      key in MonthlyBreakdown(df, threshold) &&
      DailyHours(df, threshold)[d].hours <= MonthlyBreakdown(df, threshold)[key].hoursAboveLimit
  {
    var rows := Above(df, threshold);
    var key := (d.month as int, MonthName(d.month));
    DayInMonth(df, threshold, d);
    WhereMonotone(rows, (f: Fact) => f.date == d, (f: Fact) => MonthKey(f) == key);
    assert DailyHours(df, threshold)[d].hours == |HoursOn(rows, d)|;
    assert MonthlyBreakdown(df, threshold)[key].hoursAboveLimit == |InMonth(rows, key)|;
  }

  lemma DayInMonth(df: seq<Fact>, threshold: real, d: Date)
    requires forall i :: 0 <= i < |df| ==> df[i].month == df[i].date.month && df[i].monthName == MonthName(df[i].month)
    requires d in DistinctKeys(Above(df, threshold), DateOf)
    ensures var rows, key := Above(df, threshold), (d.month as int, MonthName(d.month));
      && key in DistinctKeys(rows, MonthKey)
      && forall j :: 0 <= j < |rows| && rows[j].date == d ==> MonthKey(rows[j]) == key
  {
    var rows := Above(df, threshold);
    var key := (d.month as int, MonthName(d.month));
    WhereFrom(df, (f: Fact) => f.tradeAbsMw > threshold);
    var i :| 0 <= i < |rows| && DateOf(rows[i]) == d;
    assert rows[i] in df;
    assert MonthKey(rows[i]) == key;
    forall j | 0 <= j < |rows| && rows[j].date == d ensures MonthKey(rows[j]) == key {
      assert rows[j] in df;
    }
  }

  /**
   * Two interconnectors trading above the threshold in the same hour count
   * as one active hour of the day but two hours of the month.
   */
  lemma CountingRulesDiffer(f: Fact, other: string, threshold: real)
    requires f.tradeAbsMw > threshold
    ensures var g := f.(interconnector := other, interconnectorGroup := MapGroup(other));
      && f.date in DailyHours([f, g], threshold)
      && DailyHours([f, g], threshold)[f.date].hours == 1
      && MonthKey(f) in MonthlyBreakdown([f, g], threshold)
      && MonthlyBreakdown([f, g], threshold)[MonthKey(f)].hoursAboveLimit == 2
  {
    var g := f.(interconnector := other, interconnectorGroup := MapGroup(other));
    var df := [f, g];
    assert g.date == f.date && g.hour == f.hour && g.month == f.month && g.monthName == f.monthName;
    assert g.tradeAbsMw > threshold;
    BothAbove(f, g, threshold);
    assert DateOf(df[0]) == f.date && MonthKey(df[0]) == MonthKey(f);
    DailyHoursAt(df, threshold, f.date);
    MonthlyBreakdownAt(df, threshold, MonthKey(f));
    SameHourDaily(f, g);
    SameMonthMonthly(f, g);
  }

  lemma BothAbove(f: Fact, g: Fact, threshold: real)
    requires f.tradeAbsMw > threshold && g.tradeAbsMw > threshold
    ensures Above([f, g], threshold) == [f, g]
  {
    WhereAll([f, g], (h: Fact) => h.tradeAbsMw > threshold);
  }

  /** The daily entry of a date present above the threshold is its distinct hour count. */
  lemma DailyHoursAt(df: seq<Fact>, threshold: real, d: Date)
    requires d in DistinctKeys(Above(df, threshold), DateOf)
    ensures d in DailyHours(df, threshold)
    ensures DailyHours(df, threshold)[d].hours == |HoursOn(Above(df, threshold), d)|
    ensures DailyHours(df, threshold)[d].hours == |KeysWhere(df, (f: Fact) => f.tradeAbsMw > threshold && f.date == d, HourOf)|
  {
    var above := (f: Fact) => f.tradeAbsMw > threshold;
    var onDay := (f: Fact) => f.date == d;
    var both := (f: Fact) => f.tradeAbsMw > threshold && f.date == d;
    WhereWhere(df, above, onDay, both);
    WhereKeys(df, both, HourOf);
  }

  /** The monthly entry of a month present above the threshold is its row count. */
  lemma MonthlyBreakdownAt(df: seq<Fact>, threshold: real, key: (int, string))
    requires key in DistinctKeys(Above(df, threshold), MonthKey)
    ensures key in MonthlyBreakdown(df, threshold)
    ensures MonthlyBreakdown(df, threshold)[key].hoursAboveLimit == |InMonth(Above(df, threshold), key)|
    ensures MonthlyBreakdown(df, threshold)[key].hoursAboveLimit == |Positions(df, (f: Fact) => f.tradeAbsMw > threshold && MonthKey(f) == key)|
  {
    var above := (f: Fact) => f.tradeAbsMw > threshold;
    var inMonth := (f: Fact) => MonthKey(f) == key;
    var both := (f: Fact) => f.tradeAbsMw > threshold && MonthKey(f) == key;
    WhereWhere(df, above, inMonth, both);
    WhereCount(df, both);
  }

  /** Two rows sharing a date and an hour give that date one active hour. */
  lemma SameHourDaily(f: Fact, g: Fact)
    requires g.date == f.date && g.hour == f.hour
    ensures |HoursOn([f, g], f.date)| == 1
  {
    var rows := [f, g];
    WhereAll(rows, (h: Fact) => h.date == f.date);
    assert OnDate(rows, f.date) == rows;
    assert DistinctKeys(rows, HourOf) == {HourOf(f)};
  }

  /** Two rows sharing a month count twice in it. */
  lemma SameMonthMonthly(f: Fact, g: Fact)
    requires g.month == f.month && g.monthName == f.monthName
    ensures |InMonth([f, g], MonthKey(f))| == 2
  {
    WhereAll([f, g], (h: Fact) => MonthKey(h) == MonthKey(f));
  }

  /** Number of 50 MW buckets between 0 and 2000 MW. */
  const BucketCount: nat := 40

  /** Bucket `k` covers (50k, 50k + 50] MW; the first also includes 0. */
  predicate InBucket(v: real, k: nat) {
    k < BucketCount &&
    (if k == 0 then 0.0 <= v <= 50.0 else 50.0 * k as real < v <= 50.0 * k as real + 50.0)
  }

  /** `pd.cut` into 50 MW bins from 0 to 2000, lowest edge included, as a bucket index; NaN outside [0, 2000]. */
  function MwBucket(v: real): (b: Option<nat>)
    ensures b.Some? <==> 0.0 <= v <= 2000.0
    ensures b.Some? ==> InBucket(v, b.value)
  {
    if v < 0.0 || v > 2000.0 then None
    else if v <= 50.0 then Some(0)
    else
      var q := v / 50.0;
      var c := -((-q).Floor);
      assert (c - 1) as real < q <= c as real;
      assert 50.0 * (c - 1) as real < v <= 50.0 * c as real;
      Some(c - 1)
  }

  /** Each MW value lies in exactly the bucket `pd.cut` gives it. */
  lemma BucketExactlyOne(v: real, k: nat)
    ensures InBucket(v, k) <==> MwBucket(v) == Some(k)
  {
    if InBucket(v, k) && MwBucket(v).Some? {
      var b := MwBucket(v).value;
      if b < k {
        assert 50.0 * b as real + 50.0 <= 50.0 * k as real;
      } else if b > k {
        assert 50.0 * k as real + 50.0 <= 50.0 * b as real;
      }
    }
  }

  /** The label of bucket `k`: its lower and upper MW edge, "a to b MW". */
  function BucketLabel(k: nat): string {
    NatToString(50 * k) + (" to " + NatToString(50 * k + 50) + " MW")
  }

  /** Different buckets have different labels. */
  lemma BucketLabelsDistinct(k: nat, j: nat)
    requires BucketLabel(k) == BucketLabel(j)
    ensures k == j
  {
    var a, b := NatToString(50 * k), NatToString(50 * j);
    var x, y := " to " + NatToString(50 * k + 50) + " MW", " to " + NatToString(50 * j + 50) + " MW";
    assert x[0] == ' ' && y[0] == ' ';
    DigitsBeforeSpace(a, x, b, y);
  }

  /** Two digit strings each followed by a space-led tail: equal wholes have equal digit prefixes. */
  lemma DigitsBeforeSpace(a: string, x: string, b: string, y: string)
    requires AllDigits(a) && AllDigits(b) && |x| > 0 && |y| > 0 && x[0] == ' ' && y[0] == ' '
    requires a + x == b + y
    ensures a == b
  {
    if |a| < |b| {
      CharAtJoin(a, x, b, y);
    } else if |b| < |a| {
      CharAtJoin(b, y, a, x);
    }
    assert a == (a + x)[..|a|] && b == (b + y)[..|b|];
  }

  /** Where the shorter head ends, the longer head holds the first character of the other tail. */
  lemma CharAtJoin(a: string, x: string, b: string, y: string)
    requires |x| > 0 && a + x == b + y && |a| < |b|
    ensures b[|a|] == x[0]
  {
    assert (a + x)[|a|] == x[0] && (b + y)[|a|] == b[|a|];
  }

  /** The first label: "0 to 50 MW". */
  lemma FirstBucketLabel()
    ensures BucketLabel(0) == "0 to 50 MW"
  {
    FiftyText();
    LabelOfEdges(0, "0", "50");
  }

  /** The last label: "1950 to 2000 MW". */
  lemma LastBucketLabel()
    ensures BucketLabel(39) == "1950 to 2000 MW"
  {
    LastEdgesText();
    LabelOfEdges(39, "1950", "2000");
  }

  /** A label is assembled from the texts of its two edges. */
  lemma LabelOfEdges(k: nat, lower: string, upper: string)
    requires NatToString(50 * k) == lower && NatToString(50 * k + 50) == upper
    ensures BucketLabel(k) == lower + " to " + upper + " MW"
  {
  }

  lemma FiftyText()
    ensures NatToString(0) == "0" && NatToString(50) == "50"
  {
    assert NatToString(5) == "5";
  }

  lemma LastEdgesText()
    ensures NatToString(1950) == "1950" && NatToString(2000) == "2000"
  {
    assert NatToString(1) == "1" && NatToString(19) == "19" && NatToString(195) == "195";
    assert NatToString(2) == "2" && NatToString(20) == "20" && NatToString(200) == "200";
  }

  /** Bucket index of a row; rows outside [0, 2000] MW get index 40 (no bucket). */
  function BucketIndex(f: Fact): (k: nat)
    ensures k <= BucketCount
  {
    match MwBucket(f.tradeAbsMw)
    case Some(b) => b
    case None => BucketCount
  }

  /** A row of the utilisation table: bucket, its label and its hour count. */
  datatype BucketRow = BucketRow(bucket: nat, mwRange: string, hourCount: nat)

  function BucketOf(r: BucketRow): int { r.bucket }

  /** `r` is the table row of its bucket: that bucket's label and its row count in `df`. */
  predicate RowOfBucket(df: seq<Fact>, r: BucketRow) {
    r.bucket < BucketCount && r.mwRange == BucketLabel(r.bucket) && r.hourCount == CountKey(df, BucketIndex, r.bucket)
  }

  /** One row per bucket, in bucket order, empty buckets included. */
  function AllBuckets(df: seq<Fact>): (all: seq<BucketRow>)
    ensures |all| == BucketCount
    ensures forall k :: 0 <= k < BucketCount ==> all[k].bucket == k && RowOfBucket(df, all[k])
  {
    seq(BucketCount, k requires 0 <= k < BucketCount => BucketRow(k, BucketLabel(k), CountKey(df, BucketIndex, k)))
  }

  /**
   * The row count per MW range, observed ranges only: the buckets that hold at
   * least one row, in bucket order.
   */
  function UtilizationTable(df: seq<Fact>): (t: seq<BucketRow>)
    ensures forall i :: 0 <= i < |t| ==> RowOfBucket(df, t[i]) && t[i].hourCount > 0
    ensures forall k :: 0 <= k < BucketCount && CountKey(df, BucketIndex, k) > 0 ==>
      exists i :: 0 <= i < |t| && t[i].bucket == k
    ensures forall i, j :: 0 <= i < j < |t| ==> t[i].bucket < t[j].bucket
  {
    OccupiedRows(df);
    OccupiedListed(df, Where(AllBuckets(df), Occupied));
    OccupiedOrdered(df);
    Where(AllBuckets(df), Occupied)
  }

  /** A bucket that holds at least one hour. */
  predicate Occupied(r: BucketRow) {
    r.hourCount > 0
  }

  /** Every row the utilisation table keeps is a well-formed, non-empty bucket. */
  lemma OccupiedRows(df: seq<Fact>)
    ensures var t := Where(AllBuckets(df), Occupied);
      forall i :: 0 <= i < |t| ==> RowOfBucket(df, t[i]) && t[i].hourCount > 0
  {
    var all := AllBuckets(df);
    var t := Where(all, Occupied);
    WhereFrom(all, Occupied);
    forall i | 0 <= i < |t| ensures RowOfBucket(df, t[i]) && t[i].hourCount > 0 {
      var k :| 0 <= k < |all| && all[k] == t[i];
    }
  }

  /** Every bucket that holds an hour has its row in the utilisation table. */
  lemma OccupiedListed(df: seq<Fact>, t: seq<BucketRow>)
    requires t == Where(AllBuckets(df), Occupied)
    ensures forall k :: 0 <= k < BucketCount && CountKey(df, BucketIndex, k) > 0 ==>
      exists i :: 0 <= i < |t| && t[i].bucket == k
  {
    var all := AllBuckets(df);
    forall k | 0 <= k < BucketCount && CountKey(df, BucketIndex, k) > 0
      ensures exists i :: 0 <= i < |t| && t[i].bucket == k
    {
      WhereMember(all, Occupied, all[k]);
    }
  }

  /** The rows of the utilisation table are in increasing bucket order. */
  lemma OccupiedOrdered(df: seq<Fact>)
    ensures var t := Where(AllBuckets(df), Occupied);
      forall i, j :: 0 <= i < j < |t| ==> t[i].bucket < t[j].bucket
  {
    WhereIncreasing(AllBuckets(df), Occupied, BucketOf);
  }

  /** The 40 bucket counts together cover exactly the rows between 0 and 2000 MW. */
  lemma BucketCountsCoverRange(df: seq<Fact>)
    ensures SumCounts(df, BucketIndex, BucketCount) == |Where(df, (f: Fact) => 0.0 <= f.tradeAbsMw <= 2000.0)|
  {
    PartitionCount(df, BucketIndex, BucketCount, (f: Fact) => 0.0 <= f.tradeAbsMw <= 2000.0);
  }
}
