/**
 * The BMU accuracy dashboard's table logic on the loaded tables: the
 * monthly P90 error per BMU and its left join onto the annual table, the
 * attention flag, the sidebar filters, the fleet and per-fuel statistics,
 * the per-fuel attention count and the error bands.
 */
module AccuracyReport {
  import opened Nullable
  import opened Tables
  import opened Stats
  import opened AccuracyLoad

  /** Column selectors of the monthly table. */
  function MonthlyBmu(m: MonthlyRow): string { m.bmu }
  function MonthlyError(m: MonthlyRow): Option<real> { m.mAbsNetError }

  /** The monthly rows of one BMU: a group of `groupby("BMU")`. */
  function MonthlyOf(monthly: seq<MonthlyRow>, bmu: string): seq<MonthlyRow> {
    Where(monthly, (m: MonthlyRow) => m.bmu == bmu)
  }

  /** The P90 of a BMU's non-null monthly errors, null when it has none (lines 269-271). */
  function BmuP90(monthly: seq<MonthlyRow>, bmu: string): (p: Option<real>)
    ensures var xs := Present(MonthlyOf(monthly, bmu), MonthlyError);
      (p.None? <==> xs == []) && (p.Some? ==> MinOf(xs) <= p.value <= MaxOf(xs))
  {
    NanPercentile(Present(MonthlyOf(monthly, bmu), MonthlyError), 90.0)
  }

  /** `df_monthly_p90` (lines 265-277): one entry per BMU of the monthly table. */
  function MonthlyP90(monthly: seq<MonthlyRow>): (m: map<string, Option<real>>)
    ensures m.Keys == DistinctKeys(monthly, MonthlyBmu)
  {
    map b | b in DistinctKeys(monthly, MonthlyBmu) :: BmuP90(monthly, b)
  }

  /** A BMU's P90 is null exactly when every one of its monthly errors is null. */
  lemma BmuP90Null(monthly: seq<MonthlyRow>, bmu: string)
    ensures BmuP90(monthly, bmu).None? <==>
      forall i :: 0 <= i < |monthly| && monthly[i].bmu == bmu ==> monthly[i].mAbsNetError.None?
  {
    var group := MonthlyOf(monthly, bmu);
    PresentEmpty(group, MonthlyError);
    WhereFrom(monthly, (m: MonthlyRow) => m.bmu == bmu);
    if BmuP90(monthly, bmu).None? {
      forall i | 0 <= i < |monthly| && monthly[i].bmu == bmu ensures monthly[i].mAbsNetError.None? {
        assert monthly[i] in group;
      }
    } else {
      var j :| 0 <= j < |group| && group[j].mAbsNetError.Some?;
      var i :| 0 <= i < |monthly| && monthly[i] == group[j];
    }
  }

  /** The P90 table does not depend on the order of the monthly rows. */
  lemma MonthlyP90Permutation(a: seq<MonthlyRow>, b: seq<MonthlyRow>)
    requires multiset(a) == multiset(b)
    ensures MonthlyP90(a) == MonthlyP90(b)
  {
    var ma, mb := MonthlyP90(a), MonthlyP90(b);
    DistinctKeysPermutation(a, b, MonthlyBmu);
    assert ma.Keys == mb.Keys;
    forall bmu | bmu in ma ensures ma[bmu] == mb[bmu] {
      BmuP90Permutation(a, b, bmu);
    }
    MapsEqual(ma, mb);
  }

  lemma BmuP90Permutation(a: seq<MonthlyRow>, b: seq<MonthlyRow>, bmu: string)
    requires multiset(a) == multiset(b)
    ensures BmuP90(a, bmu) == BmuP90(b, bmu)
  {
    WherePermutation(a, b, (m: MonthlyRow) => m.bmu == bmu);
    var xs := Present(MonthlyOf(a, bmu), MonthlyError);
    var ys := Present(MonthlyOf(b, bmu), MonthlyError);
    PresentPermutation(MonthlyOf(a, bmu), MonthlyOf(b, bmu), MonthlyError);
    assert |xs| == |multiset(xs)| == |multiset(ys)| == |ys|;
    if xs != [] {
      PercentilePermutation(xs, ys, 90.0);
    }
  }

  /** A BMU with monthly errors 10, 20, 30, 40, 50 and one null has P90 = 46. */
  lemma MonthlyP90Example(monthly: seq<MonthlyRow>, bmu: string)
    requires |monthly| == 6 && forall i :: 0 <= i < 6 ==> monthly[i].bmu == bmu
    requires monthly[0].mAbsNetError == Some(10.0) && monthly[1].mAbsNetError == Some(20.0)
    requires monthly[2].mAbsNetError == Some(30.0) && monthly[3].mAbsNetError == Some(40.0)
    requires monthly[4].mAbsNetError == Some(50.0) && monthly[5].mAbsNetError == None
    ensures bmu in MonthlyP90(monthly) && MonthlyP90(monthly)[bmu] == Some(46.0)
  {
    assert MonthlyBmu(monthly[0]) == bmu;
    WhereAll(monthly, (m: MonthlyRow) => m.bmu == bmu);
    SixErrors(monthly);
    NinetiethPercentileExample();
    assert BmuP90(monthly, bmu) == Some(46.0);
    MonthlyP90Lookup(monthly, bmu);
  }

  lemma MonthlyP90Lookup(monthly: seq<MonthlyRow>, bmu: string)
    requires bmu in MonthlyP90(monthly)
    ensures MonthlyP90(monthly)[bmu] == BmuP90(monthly, bmu)
  {
  }

  lemma SixErrors(monthly: seq<MonthlyRow>)
    requires |monthly| == 6
    requires monthly[0].mAbsNetError == Some(10.0) && monthly[1].mAbsNetError == Some(20.0)
    requires monthly[2].mAbsNetError == Some(30.0) && monthly[3].mAbsNetError == Some(40.0)
    requires monthly[4].mAbsNetError == Some(50.0) && monthly[5].mAbsNetError == None
    ensures Present(monthly, MonthlyError) == [10.0, 20.0, 30.0, 40.0, 50.0]
  {
    assert Present(monthly[5..], MonthlyError) == [] by {
      assert monthly[5..][1..] == [];
    }
    assert Present(monthly[4..], MonthlyError) == [50.0] by {
      assert monthly[4..][1..] == monthly[5..];
    }
    assert Present(monthly[3..], MonthlyError) == [40.0, 50.0] by {
      assert monthly[3..][1..] == monthly[4..];
    }
    assert Present(monthly[2..], MonthlyError) == [30.0, 40.0, 50.0] by {
      assert monthly[2..][1..] == monthly[3..];
    }
    assert Present(monthly[1..], MonthlyError) == [20.0, 30.0, 40.0, 50.0] by {
      assert monthly[1..][1..] == monthly[2..];
    }
  }

  /** An annual row with its joined monthly P90. */
  datatype MergedRow = MergedRow(row: AnnualRow, p90MonthlyError: Option<real>)

  /**
   * The left merge of the annual table with the per-BMU P90 on "BMU" (line 280): the
   * P90 table has one row per BMU, so every annual row is kept, in order,
   * with its BMU's P90 or null.
   */
  function Merge(annual: seq<AnnualRow>, p90: map<string, Option<real>>): (merged: seq<MergedRow>)
    ensures |merged| == |annual|
    ensures forall i :: 0 <= i < |annual| ==> merged[i].row == annual[i]
    ensures forall i :: 0 <= i < |annual| && annual[i].bmu !in p90 ==> merged[i].p90MonthlyError.None?
    ensures forall i :: 0 <= i < |annual| && annual[i].bmu in p90 ==> merged[i].p90MonthlyError == p90[annual[i].bmu]
  {
    seq(|annual|, i requires 0 <= i < |annual| =>
      MergedRow(annual[i], if annual[i].bmu in p90 then p90[annual[i].bmu] else None))
  }

  /** After the join, each annual row carries exactly its BMU's monthly P90; a BMU without monthly rows gets null. */
  lemma MergeCarriesBmuP90(annual: seq<AnnualRow>, monthly: seq<MonthlyRow>, i: nat)
    requires i < |annual|
    ensures Merge(annual, MonthlyP90(monthly))[i].p90MonthlyError == BmuP90(monthly, annual[i].bmu)
  {
    var bmu := annual[i].bmu;
    if bmu !in DistinctKeys(monthly, MonthlyBmu) {
      WhereNone(monthly, (m: MonthlyRow) => m.bmu == bmu);
      PresentEmpty(MonthlyOf(monthly, bmu), MonthlyError);
    }
  }

  /** The attention rule (lines 286-288): A_ABS ≥ 25 or P90 ≥ 25, a null comparison counting as false. */
  predicate NeedsAttention(aAbs: Option<real>, p90: Option<real>) {
    AtLeast(aAbs, 25.0) || AtLeast(p90, 25.0)
  }

  /** (24, 26) is flagged, (24, null) is not, (25, null) is, (null, null) is not. */
  lemma NeedsAttentionExamples()
    ensures NeedsAttention(Some(24.0), Some(26.0))
    ensures !NeedsAttention(Some(24.0), None)
    ensures NeedsAttention(Some(25.0), None)
    ensures !NeedsAttention(None, None)
  {
  }

  /** An annual row with the columns added at lines 280-288. */
  datatype Scored = Scored(row: AnnualRow, p90MonthlyError: Option<real>, errorFlagValue: Option<real>, needsAttention: bool)

  /** Column selectors of the scored annual table. */
  function Bmu(r: Scored): string { r.row.bmu }
  function Fuel(r: Scored): string { r.row.fuel }
  function AnnualError(r: Scored): Option<real> { r.row.aAbsNetError }

  /**
   * Lines 265-288: the monthly P90 table (empty without monthly rows), the
   * left join, `ErrorFlagValue` and `NeedsAttention`, added column by column.
   */
  method ScoreAnnual(dfAnnual: seq<AnnualRow>, dfMonthly: seq<MonthlyRow>) returns (scored: seq<Scored>)
    ensures |scored| == |dfAnnual|
    ensures forall i :: 0 <= i < |dfAnnual| ==>
      var p := BmuP90(dfMonthly, dfAnnual[i].bmu);
      scored[i] == Scored(dfAnnual[i], p, dfAnnual[i].aAbsNetError, NeedsAttention(dfAnnual[i].aAbsNetError, p))
  {
    var p90: map<string, Option<real>> := map[];
    if |dfMonthly| > 0 {
      p90 := MonthlyP90(dfMonthly);
    }
    assert p90 == MonthlyP90(dfMonthly);
    var merged := Merge(dfAnnual, p90);
    forall i | 0 <= i < |dfAnnual| ensures merged[i].p90MonthlyError == BmuP90(dfMonthly, dfAnnual[i].bmu) {
      MergeCarriesBmuP90(dfAnnual, dfMonthly, i);
    }
    scored := seq(|merged|, i requires 0 <= i < |merged| =>
      Scored(merged[i].row, merged[i].p90MonthlyError, merged[i].row.aAbsNetError,
        NeedsAttention(merged[i].row.aAbsNetError, merged[i].p90MonthlyError)));
  }

  /** A scored row whose flag agrees with its two error columns. */
  predicate Flagged(r: Scored) {
    r.needsAttention == NeedsAttention(r.row.aAbsNetError, r.p90MonthlyError)
  }

  /** The filter rules of lines 305-313 for one row. */
  predicate Selected(r: Scored, fuelFilter: seq<string>, bmuFilter: seq<string>, attentionOnly: bool) {
    && r.row.fuel in fuelFilter
    && (bmuFilter == [] || r.row.bmu in bmuFilter)
    && (!attentionOnly || r.needsAttention)
  }

  /** `filtered_annual`: the selected rows in their original order. */
  function GlobalFilter(df: seq<Scored>, fuelFilter: seq<string>, bmuFilter: seq<string>, attentionOnly: bool): seq<Scored> {
    Where(df, (r: Scored) => Selected(r, fuelFilter, bmuFilter, attentionOnly))
  }

  /** Lines 305-313: a copy of the table narrowed by fuel, then by BMU when any is chosen, then by the flag. */
  method ApplyGlobalFilters(dfAnnual: seq<Scored>, fuelFilter: seq<string>, bmuFilter: seq<string>, attentionOnly: bool)
    returns (filteredAnnual: seq<Scored>)
    ensures filteredAnnual == GlobalFilter(dfAnnual, fuelFilter, bmuFilter, attentionOnly)
  {
    // `sofar` is the conjunction of the filters applied so far: filteredAnnual == Where(dfAnnual, sofar).
    filteredAnnual := dfAnnual;
    ghost var sofar: Scored -> bool := (r: Scored) => r.row.fuel in fuelFilter;
    filteredAnnual := Where(filteredAnnual, (r: Scored) => r.row.fuel in fuelFilter);

    ghost var next: Scored -> bool := (r: Scored) => r.row.fuel in fuelFilter && (bmuFilter == [] || r.row.bmu in bmuFilter);
    if |bmuFilter| > 0 {
      WhereWhere(dfAnnual, sofar, (r: Scored) => r.row.bmu in bmuFilter, next);
      filteredAnnual := Where(filteredAnnual, (r: Scored) => r.row.bmu in bmuFilter);
    } else {
      WhereSameMask(dfAnnual, sofar, next);
    }
    sofar := next;

    next := (r: Scored) => Selected(r, fuelFilter, bmuFilter, attentionOnly);
    if attentionOnly {
      WhereWhere(dfAnnual, sofar, (r: Scored) => r.needsAttention == true, next);
      filteredAnnual := Where(filteredAnnual, (r: Scored) => r.needsAttention == true);
    } else {
      WhereSameMask(dfAnnual, sofar, next);
    }
  }

  /** An empty fuel selection leaves no rows. */
  lemma EmptyFuelSelection(df: seq<Scored>, bmuFilter: seq<string>, attentionOnly: bool)
    ensures GlobalFilter(df, [], bmuFilter, attentionOnly) == []
  {
    WhereNone(df, (r: Scored) => Selected(r, [], bmuFilter, attentionOnly));
  }

  /** The BMU column of a table, as a selection list. */
  function BmuColumn(df: seq<Scored>): (bmus: seq<string>)
    ensures |bmus| == |df| && forall i :: 0 <= i < |df| ==> bmus[i] == df[i].row.bmu
  {
    seq(|df|, i requires 0 <= i < |df| => df[i].row.bmu)
  }

  /** An empty BMU selection is no BMU filter: it selects what choosing every BMU selects. */
  lemma EmptyBmuSelection(df: seq<Scored>, fuelFilter: seq<string>, attentionOnly: bool)
    ensures GlobalFilter(df, fuelFilter, [], attentionOnly) == GlobalFilter(df, fuelFilter, BmuColumn(df), attentionOnly)
  {
    var all := BmuColumn(df);
    forall i | 0 <= i < |df| ensures df[i].row.bmu in all {
      assert all[i] == df[i].row.bmu;
    }
    WhereSameMask(df, (r: Scored) => Selected(r, fuelFilter, [], attentionOnly),
      (r: Scored) => Selected(r, fuelFilter, all, attentionOnly));
  }

  /** The filtered table is an order-preserving selection of the annual rows that meet every rule, and holds all of them. */
  lemma GlobalFilterRows(df: seq<Scored>, fuelFilter: seq<string>, bmuFilter: seq<string>, attentionOnly: bool)
    ensures var out := GlobalFilter(df, fuelFilter, bmuFilter, attentionOnly);
      && Subsequence(out, df)
      && (forall i :: 0 <= i < |out| ==> out[i].row.fuel in fuelFilter)
      && (forall i :: 0 <= i < |out| ==> bmuFilter == [] || out[i].row.bmu in bmuFilter)
      && (forall i :: 0 <= i < |out| ==> attentionOnly ==> out[i].needsAttention)
      && (forall i :: 0 <= i < |df| && Selected(df[i], fuelFilter, bmuFilter, attentionOnly) ==> df[i] in out)
  {
    WhereIsSubsequence(df, (r: Scored) => Selected(r, fuelFilter, bmuFilter, attentionOnly));
  }

  /** The four statistics of a set of rows: median, P90 and maximum of A_ABS_NetError%, distinct BMUs. */
  datatype Summary = Summary(median: Option<real>, p90: Option<real>, max: Option<real>, count: nat)

  /**
   * Null-skipping median, `np.nanpercentile(..., 90)` and maximum of the
   * annual error, and `nunique` of the BMU (lines 330-333, 353-356).
   */
  function Summarize(rows: seq<Scored>): (s: Summary)
    ensures s.count <= |rows|
    ensures var xs := Present(rows, AnnualError);
      && (s.median.None? <==> xs == []) && (s.p90.None? <==> xs == []) && (s.max.None? <==> xs == [])
      && (xs != [] ==> MinOf(xs) <= s.median.value <= MaxOf(xs))
      && (xs != [] ==> MinOf(xs) <= s.p90.value <= MaxOf(xs))
      && (xs != [] ==> s.max.value == MaxOf(xs))
  {
    var xs := Present(rows, AnnualError);
    Summary(NanMedian(xs), NanPercentile(xs, 90.0), NanMax(xs), DistinctCount(rows, Bmu))
  }

  /** The rows of one fuel: a group of `groupby("Fuel")`. */
  function FuelRows(df: seq<Scored>, fuel: string): seq<Scored> {
    Where(df, (r: Scored) => r.row.fuel == fuel)
  }

  /** `agg` (lines 350-360): the statistics of each fuel present in the annual table. */
  function FuelAggregates(df: seq<Scored>): (m: map<string, Summary>)
    ensures m.Keys == DistinctKeys(df, Fuel)
    ensures forall f :: f in m ==> m[f] == Summarize(FuelRows(df, f))
    ensures forall f :: f in m ==> 1 <= m[f].count <= |FuelRows(df, f)|
  {
    var fuels := DistinctKeys(df, Fuel);
    forall f | f in fuels ensures Summarize(FuelRows(df, f)).count >= 1 {
      FuelGroupHasBmu(df, f);
    }
    map f | f in fuels :: Summarize(FuelRows(df, f))
  }

  /**
   * Each fuel's median and P90 lie between the smallest and the largest
   * annual error of that fuel's rows, its maximum is the largest, and its
   * statistics are null exactly when that fuel has no error value.
   */
  lemma FuelStatsWithinGroup(df: seq<Scored>, f: string)
    requires f in DistinctKeys(df, Fuel)
    ensures var s, xs := FuelAggregates(df)[f], Present(FuelRows(df, f), AnnualError);
      && (s.median.None? <==> xs == []) && (s.p90.None? <==> xs == []) && (s.max.None? <==> xs == [])
      && (xs != [] ==> MinOf(xs) <= s.median.value <= MaxOf(xs))
      && (xs != [] ==> MinOf(xs) <= s.p90.value <= MaxOf(xs))
      && (xs != [] ==> s.max.value == MaxOf(xs))
      && s.count == DistinctCount(FuelRows(df, f), Bmu)
  {
    assert FuelAggregates(df)[f] == Summarize(FuelRows(df, f));
  }

  /** The group of a fuel that occurs has at least one BMU. */
  lemma FuelGroupHasBmu(df: seq<Scored>, f: string)
    requires f in DistinctKeys(df, Fuel)
    ensures DistinctCount(FuelRows(df, f), Bmu) >= 1
  {
    var i :| 0 <= i < |df| && Fuel(df[i]) == f;
    var group := FuelRows(df, f);
    assert df[i] in group;
    var j :| 0 <= j < |group| && group[j] == df[i];
    assert Bmu(group[j]) in DistinctKeys(group, Bmu);
  }

  /** The fleet KPIs and the per-fuel statistics are the same function: on a one-fuel table they coincide. */
  lemma SingleFuelFleet(df: seq<Scored>, fuel: string)
    requires df != [] && forall i :: 0 <= i < |df| ==> df[i].row.fuel == fuel
    ensures fuel in FuelAggregates(df) && FuelAggregates(df)[fuel] == Summarize(df)
  {
    assert Fuel(df[0]) == fuel;
    WhereAll(df, (r: Scored) => r.row.fuel == fuel);
  }

  /**
   * `fuel_attention_count` (lines 617-620): distinct BMUs of one fuel with
   * A_ABS ≥ 25 or P90 ≥ 25; without a P90 column the default 0 never passes.
   */
  function FuelAttentionCount(dfAnnual: seq<Scored>, selectedFuel: string, hasP90Column: bool): (n: nat)
    ensures n <= DistinctCount(FuelRows(dfAnnual, selectedFuel), Bmu)
  {
    var fuelRows := FuelRows(dfAnnual, selectedFuel);
    var flagged := Where(fuelRows, (r: Scored) =>
      AtLeast(r.row.aAbsNetError, 25.0) || (if hasP90Column then AtLeast(r.p90MonthlyError, 25.0) else 0.0 >= 25.0));
    WhereFrom(fuelRows, (r: Scored) =>
      AtLeast(r.row.aAbsNetError, 25.0) || (if hasP90Column then AtLeast(r.p90MonthlyError, 25.0) else 0.0 >= 25.0));
    assert DistinctKeys(flagged, Bmu) <= DistinctKeys(fuelRows, Bmu) by {
      forall b | b in DistinctKeys(flagged, Bmu) ensures b in DistinctKeys(fuelRows, Bmu) {
        var i :| 0 <= i < |flagged| && Bmu(flagged[i]) == b;
        var j :| 0 <= j < |fuelRows| && fuelRows[j] == flagged[i];
      }
    }
    SubsetCardinality(DistinctKeys(flagged, Bmu), DistinctKeys(fuelRows, Bmu));
    DistinctCount(flagged, Bmu)
  }

  lemma SubsetCardinality<K>(a: set<K>, b: set<K>)
    requires a <= b
    ensures |a| <= |b|
  {
    assert b == a + (b - a);
  }

  /** With the P90 column present, the per-fuel count is the number of distinct flagged BMUs of that fuel. */
  lemma FuelAttentionMatchesFlag(dfAnnual: seq<Scored>, selectedFuel: string)
    requires forall i :: 0 <= i < |dfAnnual| ==> Flagged(dfAnnual[i])
    ensures FuelAttentionCount(dfAnnual, selectedFuel, true) ==
      DistinctCount(Where(FuelRows(dfAnnual, selectedFuel), (r: Scored) => r.needsAttention), Bmu)
  {
    var fuelRows := FuelRows(dfAnnual, selectedFuel);
    WhereFrom(dfAnnual, (r: Scored) => r.row.fuel == selectedFuel);
    forall i | 0 <= i < |fuelRows| ensures Flagged(fuelRows[i]) {
      var j :| 0 <= j < |dfAnnual| && dfAnnual[j] == fuelRows[i];
    }
    WhereSameMask(fuelRows,
      (r: Scored) => AtLeast(r.row.aAbsNetError, 25.0) || (if true then AtLeast(r.p90MonthlyError, 25.0) else 0.0 >= 25.0),
      (r: Scored) => r.needsAttention);
  }

  /** Without the P90 column only the annual error counts. */
  lemma FuelAttentionWithoutP90(dfAnnual: seq<Scored>, selectedFuel: string)
    ensures FuelAttentionCount(dfAnnual, selectedFuel, false) ==
      DistinctCount(Where(FuelRows(dfAnnual, selectedFuel), (r: Scored) => AtLeast(r.row.aAbsNetError, 25.0)), Bmu)
  {
    WhereSameMask(FuelRows(dfAnnual, selectedFuel),
      (r: Scored) => AtLeast(r.row.aAbsNetError, 25.0) || (if false then AtLeast(r.p90MonthlyError, 25.0) else 0.0 >= 25.0),
      (r: Scored) => AtLeast(r.row.aAbsNetError, 25.0));
  }

  /** The six error-band labels, in the order the rule tests them. */
  const BandLabels: seq<string> := ["0\U{2013}1%", "1\U{2013}2%", "2\U{2013}4%", "4\U{2013}10%", ">10%", "Unknown"]

  /**
   * `classify_band` (lines 438-449): null is "Unknown"; otherwise the first
   * of v < 1, v < 2, v < 4, v < 10 that holds picks the band, and ">10%" is
   * everything from 10 up.
   */
  function ClassifyBand(v: Option<real>): (band: string)
    ensures band in BandLabels
    ensures v.None? <==> band == "Unknown"
    ensures v.Some? ==>
      && (band == BandLabels[0] <==> v.value < 1.0)
      && (band == BandLabels[1] <==> 1.0 <= v.value < 2.0)
      && (band == BandLabels[2] <==> 2.0 <= v.value < 4.0)
      && (band == BandLabels[3] <==> 4.0 <= v.value < 10.0)
      && (band == BandLabels[4] <==> v.value >= 10.0)
  {
    BandLabelsDistinct();
    if v.None? then BandLabels[5]
    else if v.value < 1.0 then BandLabels[0]
    else if v.value < 2.0 then BandLabels[1]
    else if v.value < 4.0 then BandLabels[2]
    else if v.value < 10.0 then BandLabels[3]
    else BandLabels[4]
  }

  /** The labels are six different strings, so each value gets exactly one of them. */
  lemma BandLabelsDistinct()
    ensures |BandLabels| == 6
    ensures forall i, j :: 0 <= i < j < 6 ==> BandLabels[i] != BandLabels[j]
  {
    assert BandLabels[0][0] == '0' && BandLabels[1][0] == '1' && BandLabels[2][0] == '2';
    assert BandLabels[3][0] == '4' && BandLabels[4][0] == '>' && BandLabels[5][0] == 'U';
  }

  /** 3.9999 and 2.0 fall in "2–4%", 4.0 in "4–10%", 10.0 in ">10%", null in "Unknown". */
  lemma ClassifyBandExamples()
    ensures ClassifyBand(Some(3.9999)) == "2\U{2013}4%"
    ensures ClassifyBand(Some(2.0)) == "2\U{2013}4%"
    ensures ClassifyBand(Some(4.0)) == "4\U{2013}10%"
    ensures ClassifyBand(Some(10.0)) == ">10%"
    ensures ClassifyBand(None) == "Unknown"
  {
  }

  /** The position of a row's band among the six labels. */
  function BandKey(r: Scored): (k: nat)
    ensures k < |BandLabels| && BandLabels[k] == ClassifyBand(r.row.aAbsNetError)
  {
    var v := r.row.aAbsNetError;
    if v.None? then 5
    else if v.value < 1.0 then 0
    else if v.value < 2.0 then 1
    else if v.value < 4.0 then 2
    else if v.value < 10.0 then 3
    else 4
  }

  /** The position of a label among the six band labels. */
  function BandPosition(band: string): (k: nat)
    requires band in BandLabels
    ensures k < |BandLabels| && BandLabels[k] == band
  {
    if band == BandLabels[0] then 0
    else if band == BandLabels[1] then 1
    else if band == BandLabels[2] then 2
    else if band == BandLabels[3] then 3
    else if band == BandLabels[4] then 4
    else 5
  }

  /** `groupby("ErrorBand")["BMU"].count()` (lines 452-464): rows per band that occurs. */
  function BandCounts(rows: seq<Scored>): (m: map<string, nat>)
    ensures forall band :: band in m ==> band in BandLabels && m[band] == CountKey(rows, BandKey, BandPosition(band)) > 0
    ensures forall band :: band in BandLabels && CountKey(rows, BandKey, BandPosition(band)) > 0 ==> band in m
  {
    map band | band in BandLabels && CountKey(rows, BandKey, BandPosition(band)) > 0 :: CountKey(rows, BandKey, BandPosition(band))
  }

  /** Every filtered row is counted in exactly one band: the six counts add up to the table. */
  lemma BandCountsCoverRows(rows: seq<Scored>)
    ensures SumCounts(rows, BandKey, |BandLabels|) == |rows|
  {
    PartitionCount(rows, BandKey, |BandLabels|, (r: Scored) => true);
    WhereAll(rows, (r: Scored) => true);
  }

  /** A band shows in the chart exactly when some row falls in it, with the number of rows in that band. */
  lemma BandCountsPresent(rows: seq<Scored>, k: nat)
    requires k < |BandLabels|
    ensures BandLabels[k] in BandCounts(rows) <==> exists i :: 0 <= i < |rows| && ClassifyBand(rows[i].row.aAbsNetError) == BandLabels[k]
    ensures BandLabels[k] in BandCounts(rows) ==> BandCounts(rows)[BandLabels[k]] == CountKey(rows, BandKey, k)
  {
    BandLabelsDistinct();
    assert BandPosition(BandLabels[k]) == k;
    CountKeyPositive(rows, BandKey, k);
    if exists i :: 0 <= i < |rows| && ClassifyBand(rows[i].row.aAbsNetError) == BandLabels[k] {
      var i :| 0 <= i < |rows| && ClassifyBand(rows[i].row.aAbsNetError) == BandLabels[k];
      assert BandKey(rows[i]) == k;
    }
  }
}
