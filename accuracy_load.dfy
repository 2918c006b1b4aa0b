/**
 * Ingestion of the BMU accuracy summaries: each CSV file is read, its column
 * names are stripped, the whitelisted numeric columns are coerced with
 * `pd.to_numeric(errors="coerce")`, the identity columns are cast to text and
 * the grain tags are added; monthly files also get their period parsed from
 * the padded `year_month` text. The files of each grain are concatenated.
 */
module AccuracyLoad {
  import opened Nullable
  import opened Text
  import opened Calendar

  /** A CSV cell as read: its text, or an empty field (read as NaN). */
  datatype Cell = Filled(text: string) | Empty

  /** A CSV file: the header line and the data rows, cell by cell. */
  datatype CsvFile = CsvFile(header: seq<string>, rows: seq<seq<Cell>>)

  /** A column value: a coerced number (None for NaN) or a cell left as read. */
  datatype Value = Number(number: Option<real>) | Raw(cell: Cell)

  /** A DataFrame: column names and one value per column in each row. */
  datatype Frame = Frame(columns: seq<string>, rows: seq<seq<Value>>)

  predicate Rectangular(df: Frame) {
    forall i :: 0 <= i < |df.rows| ==> |df.rows[i]| == |df.columns|
  }

  /** The `j`-th cell of a CSV row; a short row is padded with empty fields. */
  function CellAt(row: seq<Cell>, j: nat): Cell {
    if j < |row| then row[j] else Empty
  }

  /** `pd.read_csv(f)` followed by `df.columns = df.columns.str.strip()` (line 111). */
  function ReadFrame(file: CsvFile): (df: Frame)
    ensures Rectangular(df) && |df.rows| == |file.rows|
    ensures |df.columns| == |file.header|
    ensures forall j :: 0 <= j < |df.columns| ==> df.columns[j] == Strip(file.header[j])
    ensures forall i, j :: 0 <= i < |df.rows| && 0 <= j < |df.columns| ==> df.rows[i][j] == Raw(CellAt(file.rows[i], j))
  {
    var n := |file.header|;
    Frame(
      seq(n, j requires 0 <= j < n => Strip(file.header[j])),
      seq(|file.rows|, i requires 0 <= i < |file.rows| =>
        seq(n, j requires 0 <= j < n => Raw(CellAt(file.rows[i], j)))))
  }

  /** `pd.to_numeric(cell, errors="coerce")`: the decimal the text spells, else NaN. */
  function CellNumber(c: Cell): Option<real> {
    match c
    case Filled(s) => ParseDecimal(s)
    case Empty => None
  }

  /** Coercion of one value; an already numeric value is left alone. */
  function ToNumber(v: Value): (r: Value)
    ensures r.Number?
    ensures v.Number? ==> r == v
    ensures v.Raw? ==> r.number == CellNumber(v.cell)
  {
    match v
    case Number(_) => v
    case Raw(c) => Number(CellNumber(c))
  }

  /** Whether column `j` is one of the columns being coerced. */
  predicate Coerces(columns: seq<string>, cols: set<string>, j: nat) {
    j < |columns| && columns[j] in cols
  }

  function CoerceRow(columns: seq<string>, row: seq<Value>, cols: set<string>): (r: seq<Value>)
    ensures |r| == |row|
    ensures forall j :: 0 <= j < |row| ==> r[j] == if Coerces(columns, cols, j) then ToNumber(row[j]) else row[j]
  {
    seq(|row|, j requires 0 <= j < |row| => if Coerces(columns, cols, j) then ToNumber(row[j]) else row[j])
  }

  /**
   * Numeric coercion of every column named in `cols`: those columns become
   * numeric, every other column and every row is kept as it is.
   */
  function Coerced(df: Frame, cols: set<string>): (r: Frame)
    ensures r.columns == df.columns && |r.rows| == |df.rows|
    ensures forall i :: 0 <= i < |r.rows| ==> r.rows[i] == CoerceRow(df.columns, df.rows[i], cols)
  {
    Frame(df.columns, seq(|df.rows|, i requires 0 <= i < |df.rows| => CoerceRow(df.columns, df.rows[i], cols)))
  }

  /** Coercion keeps the frame rectangular. */
  lemma CoercedRectangular(df: Frame, cols: set<string>)
    requires Rectangular(df)
    ensures Rectangular(Coerced(df, cols))
  {
  }

  /** Coercing one set of columns and then another is coercing both at once. */
  lemma CoercedUnion(df: Frame, a: set<string>, b: set<string>)
    ensures Coerced(Coerced(df, a), b) == Coerced(df, a + b)
  {
    var left := Coerced(Coerced(df, a), b);
    var right := Coerced(df, a + b);
    forall i | 0 <= i < |df.rows| ensures left.rows[i] == right.rows[i] {
      var row := df.rows[i];
      assert forall j :: 0 <= j < |row| ==> left.rows[i][j] == right.rows[i][j];
    }
  }

  /** Coercing no column changes nothing. */
  lemma CoercedNothing(df: Frame)
    ensures Coerced(df, {}) == df
  {
    var r := Coerced(df, {});
    forall i | 0 <= i < |df.rows| ensures r.rows[i] == df.rows[i] {
    }
  }

  /** Naming a column the frame does not have changes nothing. */
  lemma CoercedAbsent(df: Frame, cols: set<string>, c: string)
    requires c !in df.columns
    ensures Coerced(df, cols + {c}) == Coerced(df, cols)
  {
    var left := Coerced(df, cols + {c});
    var right := Coerced(df, cols);
    forall i | 0 <= i < |df.rows| ensures left.rows[i] == right.rows[i] {
      var row := df.rows[i];
      forall j | 0 <= j < |row| ensures left.rows[i][j] == right.rows[i][j] {
        assert Coerces(df.columns, cols + {c}, j) == Coerces(df.columns, cols, j);
      }
    }
  }

  /** Coercing a column twice is coercing it once. */
  lemma CoercedIdempotent(df: Frame, cols: set<string>)
    ensures Coerced(Coerced(df, cols), cols) == Coerced(df, cols)
  {
    CoercedUnion(df, cols, cols);
    assert cols + cols == cols;
  }

  /** A coerced cell whose text holds a character no number has becomes NaN; its row stays. */
  lemma NonNumericCellIsNull(df: Frame, cols: set<string>, i: nat, j: nat, k: nat)
    requires i < |df.rows| && j < |df.rows[i]| && Coerces(df.columns, cols, j)
    requires df.rows[i][j].Raw? && df.rows[i][j].cell.Filled?
    requires k < |df.rows[i][j].cell.text| && !IsNumeric(df.rows[i][j].cell.text[k])
    ensures i < |Coerced(df, cols).rows| && Coerced(df, cols).rows[i][j] == Number(None)
  {
    NonNumericIsNull(df.rows[i][j].cell.text, k);
  }

  /** The numeric whitelist of an annual file (lines 120-137). */
  const AnnualNumeric: seq<string> := [
    "PNLevel", "MELLevel", "MILLevel", "BidVolume", "OfferVolume",
    "Metered", "ExpectOT", "CapacityCalibrated", "NetError", "ABSError",
    "max_M_ABS_NetError%", "installedCapacity_mwh", "A_NetError%",
    "A_ABS_NetError%", "Rank_A_ABS_NetError%", "PctRank_A_ABS_NetError%"
  ]

  /** The numeric whitelist of a monthly file (lines 175-191). */
  const MonthlyNumeric: seq<string> := [
    "PNLevel", "MELLevel", "MILLevel", "BidVolume", "OfferVolume",
    "Metered", "ExpectOT", "CapacityCalibrated", "NetError", "ABSError",
    "installedCapacity_mwh", "M_NetError%", "M_ABS_NetError%",
    "Rank_M_ABS_NetError%", "PctRank_M_ABS_NetError%"
  ]

  function ToSet(names: seq<string>): (s: set<string>)
    ensures forall c :: c in s <==> c in names
  {
    set c | c in names
  }

  /**
   * The coercion loop over a numeric whitelist: the whitelisted columns the
   * frame has are coerced, the others are skipped.
   */
  method CoerceNumericColumns(df: Frame, numCols: seq<string>) returns (out: Frame)
    ensures out == Coerced(df, ToSet(numCols))
  {
    out := df;
    var i := 0;
    CoercedNothing(df);
    assert ToSet(numCols[..0]) == {};
    while i < |numCols|
      invariant 0 <= i <= |numCols|
      invariant out == Coerced(df, ToSet(numCols[..i]))
    {
      var c := numCols[i];
      assert ToSet(numCols[..i + 1]) == ToSet(numCols[..i]) + {c} by {
        assert numCols[..i + 1] == numCols[..i] + [c];
      }
      if c in out.columns {
        CoercedUnion(df, ToSet(numCols[..i]), {c});
        out := Coerced(out, {c});
      } else {
        CoercedAbsent(df, ToSet(numCols[..i]), c);
      }
      i := i + 1;
    }
    assert numCols[..i] == numCols;
  }

  /** Position of the first column named `name`, or the number of columns when there is none. */
  function ColumnIndex(columns: seq<string>, name: string): (j: nat)
    ensures j <= |columns|
    ensures j < |columns| <==> name in columns
    ensures j < |columns| ==> columns[j] == name
    ensures forall k :: 0 <= k < j ==> columns[k] != name
  {
    if columns == [] then 0
    else if columns[0] == name then 0
    else
      var j := ColumnIndex(columns[1..], name);
      assert forall k :: 1 <= k < j + 1 ==> columns[k] == columns[1..][k - 1];
      1 + j
  }

  /** The value at position `j` of a frame row; a position past the row's end reads as an empty field. */
  function CellOf(row: seq<Value>, j: nat): Value {
    if j < |row| then row[j] else Raw(Empty)
  }

  /** `row[name]`: the value in the first column of that name, None when the frame has no such column. */
  function Get(columns: seq<string>, row: seq<Value>, name: string): (v: Option<Value>)
    ensures v.Some? <==> name in columns
    ensures v.Some? ==> v.value == CellOf(row, ColumnIndex(columns, name))
  {
    var j := ColumnIndex(columns, name);
    if j == |columns| then None
    else if j < |row| then Some(row[j])
    else Some(Raw(Empty))
  }

  /** `astype(str)` of a value that was never coerced: its text; NaN prints as "nan". */
  function TextOf(v: Value): string {
    match v
    case Raw(Filled(s)) => s
    case Raw(Empty) => "nan"
    case Number(None) => "nan"
    case Number(Some(_)) => ""
  }

  /** A numeric column value: the coerced number, or the number a cell left as read spells. */
  function NumberOf(v: Option<Value>): Option<real> {
    match v
    case Some(Number(n)) => n
    case Some(Raw(c)) => CellNumber(c)
    case None => None
  }

  /** The identity and period columns are not in either whitelist, so coercion leaves them as read. */
  lemma IdentityColumnsUncoerced(df: Frame, i: nat, name: string)
    requires name in {"nationalGridBmUnit", "FUEL_I", "year_month"}
    requires i < |df.rows|
    ensures Get(df.columns, Coerced(df, ToSet(AnnualNumeric)).rows[i], name) == Get(df.columns, df.rows[i], name)
    ensures Get(df.columns, Coerced(df, ToSet(MonthlyNumeric)).rows[i], name) == Get(df.columns, df.rows[i], name)
  {
    IdentityNotNumeric(name);
    GetUncoerced(df, ToSet(AnnualNumeric), i, name);
    GetUncoerced(df, ToSet(MonthlyNumeric), i, name);
  }

  lemma IdentityNotNumeric(name: string)
    requires name in {"nationalGridBmUnit", "FUEL_I", "year_month"}
    ensures name !in AnnualNumeric && name !in MonthlyNumeric
  {
  }

  /** A column outside the coerced set reads the same after coercion. */
  lemma GetUncoerced(df: Frame, cols: set<string>, i: nat, name: string)
    requires name !in cols && i < |df.rows|
    ensures Get(df.columns, Coerced(df, cols).rows[i], name) == Get(df.columns, df.rows[i], name)
  {
    var j := ColumnIndex(df.columns, name);
    if j < |df.columns| {
      assert !Coerces(df.columns, cols, j);
    }
  }

  /** A row of the annual table with the columns the dashboard goes on to use. */
  datatype AnnualRow = AnnualRow(bmu: string, fuel: string, aAbsNetError: Option<real>, year: int, grain: string)

  /** A row of the monthly table with its parsed period columns. */
  datatype MonthlyRow = MonthlyRow(
    bmu: string,
    fuel: string,
    mAbsNetError: Option<real>,
    yearMonthText: string,
    yearMonthFixed: string,
    yearMonth: Option<YearMonth>,
    year: Option<int>,
    month: Option<int>,
    monthName: Option<string>,
    grain: string)

  /** `t` is `astype(str)` of the value in the first column named `name`. */
  predicate TextOfColumn(columns: seq<string>, row: seq<Value>, name: string, t: string) {
    t == TextOf(CellOf(row, ColumnIndex(columns, name)))
  }

  /** `x` is the numeric value of the first column named `name`; null when there is no such column. */
  predicate NumberOfColumn(columns: seq<string>, row: seq<Value>, name: string, x: Option<real>) {
    if name in columns then x == NumberOf(Some(CellOf(row, ColumnIndex(columns, name)))) else x.None?
  }

  /** One annual row: its BMU and fuel as text, year 2025 and grain "annual" (lines 142-145). */
  function AnnualRowOf(columns: seq<string>, row: seq<Value>): (r: AnnualRow)
    requires "nationalGridBmUnit" in columns && "FUEL_I" in columns
    ensures TextOfColumn(columns, row, "nationalGridBmUnit", r.bmu)
    ensures TextOfColumn(columns, row, "FUEL_I", r.fuel)
    ensures NumberOfColumn(columns, row, "A_ABS_NetError%", r.aAbsNetError)
    ensures r.year == 2025 && r.grain == "annual"
  {
    AnnualRow(
      TextOf(Get(columns, row, "nationalGridBmUnit").value),
      TextOf(Get(columns, row, "FUEL_I").value),
      NumberOf(Get(columns, row, "A_ABS_NetError%")),
      2025,
      "annual")
  }

  /** The tagged rows of a coerced annual frame; a missing identity column raises KeyError (None). */
  function AnnualRows(df: Frame): (r: Option<seq<AnnualRow>>)
    ensures r.Some? <==> "nationalGridBmUnit" in df.columns && "FUEL_I" in df.columns
    ensures r.Some? ==> |r.value| == |df.rows|
    ensures r.Some? ==> forall i :: 0 <= i < |r.value| ==> r.value[i].year == 2025 && r.value[i].grain == "annual"
    ensures r.Some? ==> forall i :: 0 <= i < |df.rows| ==> r.value[i] == AnnualRowOf(df.columns, df.rows[i])
  {
    if "nationalGridBmUnit" in df.columns && "FUEL_I" in df.columns then
      Some(seq(|df.rows|, i requires 0 <= i < |df.rows| => AnnualRowOf(df.columns, df.rows[i])))
    else None
  }

  /**
   * The period columns of one monthly row (lines 163-172): the text of
   * `year_month`, padded, parsed as "%Y-%m"; an unparsable period gives null
   * YearMonth, Year, Month and MonthName.
   */
  function MonthlyRowOf(columns: seq<string>, row: seq<Value>): (r: MonthlyRow)
    requires "nationalGridBmUnit" in columns && "FUEL_I" in columns && "year_month" in columns
    ensures TextOfColumn(columns, row, "nationalGridBmUnit", r.bmu)
    ensures TextOfColumn(columns, row, "FUEL_I", r.fuel)
    ensures NumberOfColumn(columns, row, "M_ABS_NetError%", r.mAbsNetError)
    ensures TextOfColumn(columns, row, "year_month", r.yearMonthText)
    ensures r.grain == "monthly"
    ensures r.yearMonthFixed == PadMonth(r.yearMonthText)
    ensures r.yearMonth == ParseYearMonth(r.yearMonthFixed)
    ensures r.yearMonth.None? ==> r.year.None? && r.month.None? && r.monthName.None?
    ensures r.yearMonth.Some? ==>
      && r.year == Some(r.yearMonth.value.year as int)
      && r.month == Some(r.yearMonth.value.month as int)
      && r.monthName == Some(MonthName(r.yearMonth.value.month))
  {
    var text := TextOf(Get(columns, row, "year_month").value);
    var fixed := PadMonth(text);
    var ym := ParseYearMonth(fixed);
    MonthlyRow(
      TextOf(Get(columns, row, "nationalGridBmUnit").value),
      TextOf(Get(columns, row, "FUEL_I").value),
      NumberOf(Get(columns, row, "M_ABS_NetError%")),
      text,
      fixed,
      ym,
      if ym.Some? then Some(ym.value.year as int) else None,
      if ym.Some? then Some(ym.value.month as int) else None,
      if ym.Some? then Some(MonthName(ym.value.month)) else None,
      "monthly")
  }

  /** The tagged rows of a coerced monthly frame; a missing identity or period column raises KeyError (None). */
  function MonthlyRows(df: Frame): (r: Option<seq<MonthlyRow>>)
    ensures r.Some? <==> "nationalGridBmUnit" in df.columns && "FUEL_I" in df.columns && "year_month" in df.columns
    ensures r.Some? ==> |r.value| == |df.rows|
    ensures r.Some? ==> forall i :: 0 <= i < |r.value| ==> r.value[i].grain == "monthly"
    ensures r.Some? ==> forall i :: 0 <= i < |df.rows| ==> r.value[i] == MonthlyRowOf(df.columns, df.rows[i])
  {
    if "nationalGridBmUnit" in df.columns && "FUEL_I" in df.columns && "year_month" in df.columns then
      Some(seq(|df.rows|, i requires 0 <= i < |df.rows| => MonthlyRowOf(df.columns, df.rows[i])))
    else None
  }

  /** One annual file, read, cleaned and tagged. */
  function AnnualFile(file: CsvFile): Option<seq<AnnualRow>> {
    AnnualRows(Coerced(ReadFrame(file), ToSet(AnnualNumeric)))
  }

  /** One monthly file, read, cleaned and tagged. */
  function MonthlyFile(file: CsvFile): Option<seq<MonthlyRow>> {
    MonthlyRows(Coerced(ReadFrame(file), ToSet(MonthlyNumeric)))
  }

  /** `pd.concat` of the annual files in order (empty for no files); None when one of them fails. */
  function AnnualTable(files: seq<CsvFile>): Option<seq<AnnualRow>> {
    if files == [] then Some([])
    else
      match (AnnualTable(files[..|files| - 1]), AnnualFile(files[|files| - 1]))
      case (Some(t), Some(u)) => Some(t + u)
      case _ => None
  }

  /** `pd.concat` of the monthly files in order (empty for no files); None when one of them fails. */
  function MonthlyTable(files: seq<CsvFile>): Option<seq<MonthlyRow>> {
    if files == [] then Some([])
    else
      match (MonthlyTable(files[..|files| - 1]), MonthlyFile(files[|files| - 1]))
      case (Some(t), Some(u)) => Some(t + u)
      case _ => None
  }

  /** Number of data rows over a list of files. */
  function TotalRows(files: seq<CsvFile>): nat {
    if files == [] then 0 else TotalRows(files[..|files| - 1]) + |files[|files| - 1].rows|
  }

  /** No annual row is dropped: the table has as many rows as the files together, each tagged 2025 / "annual". */
  lemma {:induction false} AnnualTableRows(files: seq<CsvFile>)
    ensures AnnualTable(files).Some? ==> |AnnualTable(files).value| == TotalRows(files)
    ensures AnnualTable(files).Some? ==> forall i :: 0 <= i < |AnnualTable(files).value| ==>
      AnnualTable(files).value[i].year == 2025 && AnnualTable(files).value[i].grain == "annual"
  {
    if files != [] {
      AnnualTableRows(files[..|files| - 1]);
    }
  }

  /** No monthly row is dropped, not even one with an unparsable period. */
  lemma {:induction false} MonthlyTableRows(files: seq<CsvFile>)
    ensures MonthlyTable(files).Some? ==> |MonthlyTable(files).value| == TotalRows(files)
    ensures MonthlyTable(files).Some? ==> forall i :: 0 <= i < |MonthlyTable(files).value| ==>
      MonthlyTable(files).value[i].grain == "monthly"
  {
    if files != [] {
      MonthlyTableRows(files[..|files| - 1]);
    }
  }

  /** A file lacking an identity column makes the whole load fail. */
  lemma {:induction false} AnnualTableFails(files: seq<CsvFile>, k: nat)
    requires k < |files| && AnnualFile(files[k]).None?
    ensures AnnualTable(files).None?
    decreases |files|
  {
    if k < |files| - 1 {
      assert files[..|files| - 1][k] == files[k];
      AnnualTableFails(files[..|files| - 1], k);
    }
  }

  /** Both tables, as `load_accuracy_data` returns them. */
  datatype Loaded = Loaded(annual: seq<AnnualRow>, monthly: seq<MonthlyRow>)

  /** `load_accuracy_data` as a value: both tables, or None when a KeyError is raised. */
  function LoadedTables(annualFiles: seq<CsvFile>, monthlyFiles: seq<CsvFile>): Option<Loaded> {
    match (AnnualTable(annualFiles), MonthlyTable(monthlyFiles))
    case (Some(a), Some(m)) => Some(Loaded(a, m))
    case _ => None
  }

  /**
   * `load_accuracy_data`: each annual file, then each monthly file, is read,
   * cleaned, coerced, tagged and appended; the lists are concatenated.
   */
  method LoadAccuracyData(annualFiles: seq<CsvFile>, monthlyFiles: seq<CsvFile>) returns (r: Option<Loaded>)
    ensures r == LoadedTables(annualFiles, monthlyFiles)
  {
    var dfAnnual := LoadAnnual(annualFiles);
    if dfAnnual.None? {
      return None;
    }
    var dfMonthly := LoadMonthly(monthlyFiles);
    if dfMonthly.None? {
      return None;
    }
    r := Some(Loaded(dfAnnual.value, dfMonthly.value));
  }

  /** The annual half of `load_accuracy_data`: the first loop and its `pd.concat`. */
  method LoadAnnual(files: seq<CsvFile>) returns (r: Option<seq<AnnualRow>>)
    ensures r == AnnualTable(files)
  {
    var dfs: seq<seq<AnnualRow>> := [];
    var table: seq<AnnualRow> := [];
    var i := 0;
    while i < |files|
      invariant 0 <= i <= |files|
      invariant AnnualTable(files[..i]) == Some(table)
      invariant dfs == [] ==> table == []
    {
      var df := ReadFrame(files[i]);
      df := CoerceNumericColumns(df, AnnualNumeric);
      var rows := AnnualRows(df);
      AnnualTableStep(files, i, table);
      if rows.None? {
        AnnualTableFails(files, i);
        return None;
      }
      dfs := dfs + [rows.value];
      table := table + rows.value;
      i := i + 1;
    }
    assert files[..i] == files;
    r := Some(table);
  }

  /** The monthly half of `load_accuracy_data`: the second loop and its `pd.concat`. */
  method LoadMonthly(files: seq<CsvFile>) returns (r: Option<seq<MonthlyRow>>)
    ensures r == MonthlyTable(files)
  {
    var dfs: seq<seq<MonthlyRow>> := [];
    var table: seq<MonthlyRow> := [];
    var j := 0;
    while j < |files|
      invariant 0 <= j <= |files|
      invariant MonthlyTable(files[..j]) == Some(table)
      invariant dfs == [] ==> table == []
    {
      var df := ReadFrame(files[j]);
      df := CoerceNumericColumns(df, MonthlyNumeric);
      var rows := MonthlyRows(df);
      MonthlyTableStep(files, j, table);
      if rows.None? {
        MonthlyTableFails(files, j);
        return None;
      }
      dfs := dfs + [rows.value];
      table := table + rows.value;
      j := j + 1;
    }
    assert files[..j] == files;
    r := Some(table);
  }

  /** One more annual file appends its rows to the table read so far. */
  lemma AnnualTableStep(files: seq<CsvFile>, i: nat, t: seq<AnnualRow>)
    requires i < |files| && AnnualTable(files[..i]) == Some(t)
    ensures AnnualFile(files[i]).Some? ==> AnnualTable(files[..i + 1]) == Some(t + AnnualFile(files[i]).value)
  {
    assert files[..i + 1][..i] == files[..i];
  }

  /** One more monthly file appends its rows to the table read so far. */
  lemma MonthlyTableStep(files: seq<CsvFile>, i: nat, t: seq<MonthlyRow>)
    requires i < |files| && MonthlyTable(files[..i]) == Some(t)
    ensures MonthlyFile(files[i]).Some? ==> MonthlyTable(files[..i + 1]) == Some(t + MonthlyFile(files[i]).value)
  {
    assert files[..i + 1][..i] == files[..i];
  }

  lemma {:induction false} MonthlyTableFails(files: seq<CsvFile>, k: nat)
    requires k < |files| && MonthlyFile(files[k]).None?
    ensures MonthlyTable(files).None?
    decreases |files|
  {
    if k < |files| - 1 {
      assert files[..|files| - 1][k] == files[k];
      MonthlyTableFails(files[..|files| - 1], k);
    }
  }

  /** A row whose `year_month` reads "2025-1" is dated January 2025 after padding. */
  lemma SingleDigitMonthRow(columns: seq<string>, row: seq<Value>)
    requires "nationalGridBmUnit" in columns && "FUEL_I" in columns && "year_month" in columns
    requires Get(columns, row, "year_month") == Some(Raw(Filled("2025-1")))
    ensures MonthlyRowOf(columns, row).yearMonth == Some(YearMonth(2025, 1))
    ensures MonthlyRowOf(columns, row).monthName == Some("January")
  {
    PadMonthParseExample();
  }

  /** A row whose period does not parse keeps its place with null period columns. */
  lemma UnparsablePeriodRow(columns: seq<string>, row: seq<Value>)
    requires "nationalGridBmUnit" in columns && "FUEL_I" in columns && "year_month" in columns
    requires Get(columns, row, "year_month") == Some(Raw(Empty))
    ensures MonthlyRowOf(columns, row).yearMonthText == "nan"
    ensures MonthlyRowOf(columns, row).yearMonth.None? && MonthlyRowOf(columns, row).monthName.None?
  {
    var text := TextOf(Get(columns, row, "year_month").value);
    assert text == "nan";
    assert PadMonth(text) == text by {
      assert !IsDigit(text[2]);
    }
    assert |PadMonth(text)| == 3;
  }
}
