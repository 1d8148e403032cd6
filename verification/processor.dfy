/** The record transformations of backend/app/data/processor.py. None of them changes its input:
    each builds a fresh list, dictionary or frame. The statistics pandas computes are the mean,
    minimum and maximum of Stats and the uninterpreted estimators (std, median, quantile); NaN
    cells are skipped by the reductions as pandas does, and stand for NaN in element-wise results. */
module Processor {
  import opened Wrappers
  import opened Text
  import opened Seqs
  import opened Stats
  import opened Schemas
  import opened Frames

  /** The four feature columns exist and hold no text; pandas raises otherwise. */
  predicate FeaturesNumeric(f: Frame) {
    forall c :: c in FeatureColumns ==> c in f.columns && NumericDtype(f.rows, c)
  }

  // ----- `process_species_data` -----

  /** One entry of the response's data list: the four measurements and the requested species. */
  type DataPoint = map<string, Cell>

  function PointOf(row: Row, species: string): (p: DataPoint)
    ensures p.Keys == {"sepal_length", "sepal_width", "petal_length", "petal_width", SpeciesColumn}
    ensures p[SpeciesColumn] == Str(species)
    ensures forall c :: c in FeatureColumns ==> p[c] == Get(row, c)
  {
    map[
      "sepal_length" := Get(row, "sepal_length"),
      "sepal_width" := Get(row, "sepal_width"),
      "petal_length" := Get(row, "petal_length"),
      "petal_width" := Get(row, "petal_width"),
      SpeciesColumn := Str(species)]
  }

  /** The response before pydantic checks it: species, points, and metadata. */
  datatype SpeciesResponse = SpeciesResponse(
    species: string,
    data: seq<DataPoint>,
    count: nat,
    minValues: map<string, real>,
    maxValues: map<string, real>)

  /** The `iterrows` loop of `process_species_data`: one data point per row, in order. */
  method DataPoints(rows: seq<Row>, species: string) returns (points: seq<DataPoint>)
    ensures |points| == |rows|
    ensures forall j :: 0 <= j < |rows| ==> points[j] == PointOf(rows[j], species)
  {
    points := [];
    var i := 0;
    while i < |rows|
      invariant 0 <= i <= |rows| && |points| == i
      invariant forall j :: 0 <= j < i ==> points[j] == PointOf(rows[j], species)
    {
      points := points + [PointOf(rows[i], species)];
      i := i + 1;
    }
  }

  /** A response describes the rows of a frame: it names the requested species, has one point
      per row in row order, each with that row's four measurements and the label tag, and
      per-feature bounds that enclose every number of the column and are attained. */
  ghost predicate DescribesRows(resp: SpeciesResponse, f: Frame, species: string, tag: string) {
    && resp.species == species && resp.count == |f.rows| && |resp.data| == |f.rows|
    && (forall i :: 0 <= i < |f.rows| ==>
          && resp.data[i].Keys == {"sepal_length", "sepal_width", "petal_length", "petal_width", SpeciesColumn}
          && resp.data[i][SpeciesColumn] == Str(tag)
          && forall c :: c in FeatureColumns ==> resp.data[i][c] == Get(f.rows[i], c))
    && (forall c :: c in resp.minValues <==> c in FeatureColumns)
    && (forall c :: c in resp.maxValues <==> c in FeatureColumns)
    && (forall c, i :: c in FeatureColumns && 0 <= i < |f.rows| && Get(f.rows[i], c).Num? ==>
          resp.minValues[c] <= Get(f.rows[i], c).x <= resp.maxValues[c])
    && (forall c :: c in FeatureColumns && |NumValues(f.rows, c)| > 0 ==>
          (exists i :: 0 <= i < |f.rows| && Get(f.rows[i], c) == Num(resp.minValues[c])) &&
          (exists i :: 0 <= i < |f.rows| && Get(f.rows[i], c) == Num(resp.maxValues[c])))
  }

  /** The body of `process_species_data`, with the label its points carry as the parameter tag. */
  method SpeciesResponseOf(f: Frame, species: string, tag: string) returns (resp: SpeciesResponse)
    requires FeaturesNumeric(f)
    ensures DescribesRows(resp, f, species, tag)
  {
    var points := DataPoints(f.rows, tag);
    var mins := map c | c in FeatureColumns :: MinOf(NumValues(f.rows, c));
    var maxs := map c | c in FeatureColumns :: MaxOf(NumValues(f.rows, c));
    forall c | c in FeatureColumns
      ensures forall i :: 0 <= i < |f.rows| && Get(f.rows[i], c).Num? ==> mins[c] <= Get(f.rows[i], c).x <= maxs[c]
      ensures |NumValues(f.rows, c)| > 0 ==>
        (exists i :: 0 <= i < |f.rows| && Get(f.rows[i], c) == Num(mins[c])) &&
        (exists i :: 0 <= i < |f.rows| && Get(f.rows[i], c) == Num(maxs[c]))
    {
      ColumnBounds(f.rows, c);
    }
    resp := SpeciesResponse(species, points, |f.rows|, mins, maxs);
  }

  /** Pydantic's error for a value that is not a member of `SpeciesEnum`. */
  const NotASpecies := "Input should be 'setosa', 'virginica' or 'versicolor'"

  /** A point's `species` is a `SpeciesEnum` value, as `IrisDataPoint` demands. */
  predicate ValidPointSpecies(p: DataPoint) {
    SpeciesColumn in p && p[SpeciesColumn].Str? && p[SpeciesColumn].s in SpeciesValues
  }

  /** Pydantic's check of `IrisDataResponse`'s points: every point's species is an enum value. */
  function CheckPointSpecies(resp: SpeciesResponse): Result<SpeciesResponse, string> {
    if forall i :: 0 <= i < |resp.data| ==> ValidPointSpecies(resp.data[i]) then Success(resp)
    else Failure(NotASpecies)
  }

  /** `process_species_data(df, species)` with its points labelled by the lower-cased name, the
      enum value the loader selected the rows by. For every name the loader accepts, the response
      passes the check of its points. */
  method ProcessSpeciesData(f: Frame, species: string) returns (resp: SpeciesResponse)
    requires FeaturesNumeric(f)
    ensures DescribesRows(resp, f, species, Lower(species))
    ensures Lower(species) in SpeciesValues ==> CheckPointSpecies(resp) == Success(resp)
  {
    resp := SpeciesResponseOf(f, species, Lower(species));
  }

  /** `process_species_data(df, species)` as written: every point carries the requested name as
      given, so the response is refused whenever there is a point and that name is not exactly
      an enum value, such as "Setosa", which the loader serves. */
  method ProcessSpeciesDataAsWritten(f: Frame, species: string) returns (r: Result<SpeciesResponse, string>)
    requires FeaturesNumeric(f)
    ensures r.Failure? <==> |f.rows| > 0 && species !in SpeciesValues
    ensures r.Failure? ==> r.error == NotASpecies
    ensures r.Success? ==> DescribesRows(r.value, f, species, species)
  {
    var resp := SpeciesResponseOf(f, species, species);
    r := CheckPointSpecies(resp);
    if |f.rows| > 0 && species !in SpeciesValues {
      assert !ValidPointSpecies(resp.data[0]);
    }
  }

  /** The minimum and maximum of a column's numbers enclose every number of the column and, when
      there is one, are numbers of the column. */
  lemma ColumnBounds(rows: seq<Row>, c: string)
    ensures forall i :: 0 <= i < |rows| && Get(rows[i], c).Num? ==>
      MinOf(NumValues(rows, c)) <= Get(rows[i], c).x <= MaxOf(NumValues(rows, c))
    ensures |NumValues(rows, c)| > 0 ==>
      (exists i :: 0 <= i < |rows| && Get(rows[i], c) == Num(MinOf(NumValues(rows, c)))) &&
      (exists i :: 0 <= i < |rows| && Get(rows[i], c) == Num(MaxOf(NumValues(rows, c))))
  {
    var xs := NumValues(rows, c);
    NumValuesSpec(rows, c);
    if |xs| > 0 {
      MinOfIsLeast(xs);
      MaxOfIsGreatest(xs);
      forall i | 0 <= i < |rows| && Get(rows[i], c).Num? ensures MinOf(xs) <= Get(rows[i], c).x <= MaxOf(xs) {
        var x := Get(rows[i], c).x;
        assert x in xs;
        var j :| 0 <= j < |xs| && xs[j] == x;
      }
    }
  }

  // ----- `calculate_statistics` -----

  /** `DataStatistics`: the label, the row count, and the mean and std of each feature. */
  datatype DataStatistics = DataStatistics(
    species: Cell,
    count: nat,
    means: map<string, real>,
    stds: map<string, real>)

  /** `calculate_statistics(df, species)`: a mean and a std per feature, over the numbers of the
      column; each mean lies between the column's minimum and maximum. */
  method CalculateStatistics(f: Frame, species: Cell, est: Estimators) returns (st: DataStatistics)
    requires FeaturesNumeric(f)
    ensures st.species == species && st.count == |f.rows|
    ensures forall c :: c in st.means <==> c in FeatureColumns
    ensures forall c :: c in st.stds <==> c in FeatureColumns
    ensures forall c :: c in FeatureColumns ==>
      st.means[c] == Mean(NumValues(f.rows, c)) && st.stds[c] == est.std(NumValues(f.rows, c))
    ensures forall c :: c in FeatureColumns && |NumValues(f.rows, c)| > 0 ==>
      MinOf(NumValues(f.rows, c)) <= st.means[c] <= MaxOf(NumValues(f.rows, c))
  {
    var means: map<string, real> := map[];
    var stds: map<string, real> := map[];
    var k := 0;
    while k < |FeatureColumns|
      invariant 0 <= k <= |FeatureColumns|
      invariant forall c :: c in means <==> c in FeatureColumns[..k]
      invariant forall c :: c in stds <==> c in FeatureColumns[..k]
      invariant forall c :: c in means ==> means[c] == Mean(NumValues(f.rows, c))
      invariant forall c :: c in stds ==> stds[c] == est.std(NumValues(f.rows, c))
    {
      var col := FeatureColumns[k];
      assert FeatureColumns[..k + 1] == FeatureColumns[..k] + [col];
      means := means[col := Mean(NumValues(f.rows, col))];
      stds := stds[col := est.std(NumValues(f.rows, col))];
      k := k + 1;
    }
    assert FeatureColumns[..k] == FeatureColumns;
    forall c | c in FeatureColumns && |NumValues(f.rows, c)| > 0 {
      MeanBetweenMinAndMax(NumValues(f.rows, c));
    }
    st := DataStatistics(species, |f.rows|, means, stds);
  }

  // ----- `process_summary_data` -----

  /** `df['species'].value_counts().to_dict()`: each label other than NaN with its count. */
  function ValueCounts(labels: seq<Cell>): (counts: map<Cell, nat>)
    ensures forall x :: x in counts <==> x in labels && !x.Undefined?
  {
    map x | x in labels && !x.Undefined? :: Count(labels, x)
  }

  /** The counts of m for the listed keys, summed (a missing key counts zero). */
  function SumOf(keys: seq<Cell>, m: map<Cell, nat>): nat {
    if keys == [] then 0
    else
      var k := keys[|keys| - 1];
      SumOf(keys[..|keys| - 1], m) + (if k in m then m[k] else 0)
  }

  lemma {:induction false} SumOfValueCounts(keys: seq<Cell>, labels: seq<Cell>)
    requires forall k :: k in keys ==> !k.Undefined?
    ensures SumOf(keys, ValueCounts(labels)) == SumCounts(keys, labels)
  {
    if keys != [] {
      var k := keys[|keys| - 1];
      SumOfValueCounts(keys[..|keys| - 1], labels);
      if k !in labels {
        CountAbsent(labels, k);
      }
    }
  }

  /** When no label is NaN, the species counts add up to the number of rows. */
  lemma ValueCountsSumToTotal(labels: seq<Cell>)
    requires forall i :: 0 <= i < |labels| ==> !labels[i].Undefined?
    ensures SumOf(Unique(labels), ValueCounts(labels)) == |labels|
  {
    UniqueIsDistinctAndComplete(labels);
    SumOfValueCounts(Unique(labels), labels);
    SumCountsOfUnique(labels);
  }

  /** `DataSummaryResponse`. */
  datatype SummaryResponse = SummaryResponse(
    totalRecords: nat,
    accessibleSpecies: seq<string>,
    speciesCount: map<Cell, nat>,
    statistics: seq<DataStatistics>,
    lastUpdated: Option<int>,
    userAccessLevel: Option<string>)

  /** The fields of `DataSummaryResponse` without a default. Under Pydantic 2 an `Optional` field
      without a default is required too, so `user_access_level` is among them. */
  const SummaryRequiredFields: set<string> :=
    {"total_records", "accessible_species", "species_count", "statistics", "user_access_level"}

  /** The keyword arguments `process_summary_data` passes to `DataSummaryResponse`. */
  const SummaryArgumentsAsWritten: set<string> := {"total_records", "species_count", "statistics", "last_updated"}

  /** The keyword arguments of the corrected call: the two missing fields are supplied as well. */
  const SummaryArguments: set<string> := SummaryArgumentsAsWritten + {"accessible_species", "user_access_level"}

  /** Pydantic's construction check: a validation error naming the missing required fields,
      or the response. */
  function CheckRequired(passed: set<string>, resp: SummaryResponse): Result<SummaryResponse, set<string>> {
    if SummaryRequiredFields <= passed then Success(resp) else Failure(SummaryRequiredFields - passed)
  }

  /** One statistics entry describes the rows of one label: its label and row count, and exactly
      the four feature columns as keys of both maps, holding each column's mean and sample std. */
  ghost predicate DescribesGroup(st: DataStatistics, species: Cell, rows: seq<Row>, est: Estimators) {
    && st.species == species
    && st.count == |rows|
    && (forall c :: c in st.means <==> c in FeatureColumns)
    && (forall c :: c in st.stds <==> c in FeatureColumns)
    && (forall c :: c in FeatureColumns ==>
          st.means[c] == Mean(NumValues(rows, c)) && st.stds[c] == est.std(NumValues(rows, c)))
  }

  /** `process_summary_data(df, last_updated)`, with the two required fields the code leaves out
      supplied by the caller: the row total, the count of every label, and one statistics entry
      per distinct label in order of first appearance, each over that label's rows. */
  method ProcessSummaryData(f: Frame, lastUpdated: Option<int>, accessibleSpecies: seq<string>,
                            userAccessLevel: Option<string>, est: Estimators) returns (resp: SummaryResponse)
    requires SpeciesColumn in f.columns && FeaturesNumeric(f)
    ensures resp.totalRecords == |f.rows| && resp.lastUpdated == lastUpdated
    ensures resp.accessibleSpecies == accessibleSpecies && resp.userAccessLevel == userAccessLevel
    ensures forall x :: x in resp.speciesCount <==> x in Labels(f.rows) && !x.Undefined?
    ensures forall x :: x in resp.speciesCount ==> resp.speciesCount[x] == Count(Labels(f.rows), x)
    ensures |resp.statistics| == |Unique(Labels(f.rows))|
    ensures forall i :: 0 <= i < |resp.statistics| ==>
      var tag := Unique(Labels(f.rows))[i];
      DescribesGroup(resp.statistics[i], tag, WithLabel(f.rows, tag), est)
    ensures CheckRequired(SummaryArguments, resp) == Success(resp)
  {
    var statistics := SpeciesStatistics(f, est);
    resp := SummaryResponse(|f.rows|, accessibleSpecies, ValueCounts(Labels(f.rows)), statistics, lastUpdated,
                            userAccessLevel);
  }

  /** `process_summary_data` as written: the statistics are computed, then the response is built
      without `accessible_species` and `user_access_level`, which Pydantic refuses on every input. */
  method ProcessSummaryDataAsWritten(f: Frame, lastUpdated: Option<int>, est: Estimators)
    returns (r: Result<SummaryResponse, set<string>>)
    requires SpeciesColumn in f.columns && FeaturesNumeric(f)
    ensures r == Failure({"accessible_species", "user_access_level"})
  {
    var statistics := SpeciesStatistics(f, est);
    // The two fields the call leaves out have no value; these placeholders are never observed.
    var resp := SummaryResponse(|f.rows|, [], ValueCounts(Labels(f.rows)), statistics, lastUpdated, None);
    r := CheckRequired(SummaryArgumentsAsWritten, resp);
    SummaryArgumentsAsWrittenMiss();
  }

  /** The call as written leaves out exactly `accessible_species` and `user_access_level`. */
  lemma SummaryArgumentsAsWrittenMiss()
    ensures SummaryRequiredFields - SummaryArgumentsAsWritten == {"accessible_species", "user_access_level"}
  {
    var missing := SummaryRequiredFields - SummaryArgumentsAsWritten;
    assert "accessible_species" != "total_records" && "accessible_species" != "species_count";
    assert "accessible_species" != "statistics" && "accessible_species" != "last_updated";
    assert "user_access_level" != "total_records" && "user_access_level" != "species_count";
    assert "user_access_level" != "statistics" && "user_access_level" != "last_updated";
    assert "accessible_species" in missing && "user_access_level" in missing;
  }

  /** The loop of `process_summary_data`: one entry per distinct label, in order of first appearance. */
  method SpeciesStatistics(f: Frame, est: Estimators) returns (statistics: seq<DataStatistics>)
    requires FeaturesNumeric(f)
    ensures |statistics| == |Unique(Labels(f.rows))|
    ensures forall i :: 0 <= i < |statistics| ==>
      var tag := Unique(Labels(f.rows))[i];
      DescribesGroup(statistics[i], tag, WithLabel(f.rows, tag), est)
  {
    var labels := Unique(Labels(f.rows));
    statistics := [];
    var i := 0;
    while i < |labels|
      invariant 0 <= i <= |labels| && |statistics| == i
      invariant forall j :: 0 <= j < i ==> DescribesGroup(statistics[j], labels[j], WithLabel(f.rows, labels[j]), est)
    {
      var tag := labels[i];
      var group := Frame(f.columns, WithLabel(f.rows, tag));
      forall c | c in FeatureColumns ensures NumericDtype(group.rows, c) {
        WithLabelKeepsNumeric(f.rows, tag, c);
      }
      var st := CalculateStatistics(group, tag, est);
      statistics := statistics + [st];
      i := i + 1;
    }
  }

  // ----- `filter_outliers` -----

  /** The z-score test for one cell of a listed column: |x - mean| / std <= n_std over the whole
      input. A NaN cell, or a column whose std is zero or NaN (fewer than two numbers), fails it. */
  predicate Passes(f: Frame, row: Row, col: string, nStd: real, est: Estimators) {
    var xs := NumValues(f.rows, col);
    var x := Get(row, col);
    var std := est.std(xs);
    x.Num? && |xs| >= 2 && std > 0.0 &&
      (if x.x >= Mean(xs) then x.x - Mean(xs) else Mean(xs) - x.x) <= nStd * std
  }

  /** A row survives when it passes the test for every listed column the frame has. */
  predicate PassesAll(f: Frame, row: Row, cols: seq<string>, nStd: real, est: Estimators) {
    forall c :: c in cols && c in f.columns ==> Passes(f, row, c, nStd, est)
  }

  /** The surviving rows, in their order. */
  function KeepRows(rows: seq<Row>, f: Frame, cols: seq<string>, nStd: real, est: Estimators): seq<Row> {
    if rows == [] then []
    else
      var last := rows[|rows| - 1];
      KeepRows(rows[..|rows| - 1], f, cols, nStd, est) + (if PassesAll(f, last, cols, nStd, est) then [last] else [])
  }

  /** Narrowing by one more column is narrowing by the longer list. */
  lemma {:induction false} KeepRowsStep(rows: seq<Row>, f: Frame, cols: seq<string>, c: string, nStd: real, est: Estimators)
    ensures KeepRows(KeepRows(rows, f, cols, nStd, est), f, [c], nStd, est) == KeepRows(rows, f, cols + [c], nStd, est)
  {
    if rows != [] {
      var init, last := rows[..|rows| - 1], rows[|rows| - 1];
      KeepRowsStep(init, f, cols, c, nStd, est);
      var k := KeepRows(rows, f, cols, nStd, est);
      assert PassesAll(f, last, cols + [c], nStd, est) <==>
        PassesAll(f, last, cols, nStd, est) && PassesAll(f, last, [c], nStd, est);
      if PassesAll(f, last, cols, nStd, est) {
        assert k == KeepRows(init, f, cols, nStd, est) + [last];
        assert k[..|k| - 1] == KeepRows(init, f, cols, nStd, est);
        assert k[|k| - 1] == last;
      } else {
        assert k == KeepRows(init, f, cols, nStd, est);
      }
    }
  }

  /** `filter_outliers(df, columns, n_std)`: narrows a copy column by column; the input is untouched. */
  method FilterOutliers(f: Frame, columns: seq<string>, nStd: real, est: Estimators) returns (out: Frame)
    requires forall c :: c in columns && c in f.columns ==> NumericDtype(f.rows, c)
    ensures out == Frame(f.columns, KeepRows(f.rows, f, columns, nStd, est))
  {
    var rows := f.rows;
    KeepRowsAllPass(f.rows, f, [], nStd, est);
    assert columns[..0] == [];
    var k := 0;
    while k < |columns|
      invariant 0 <= k <= |columns|
      invariant rows == KeepRows(f.rows, f, columns[..k], nStd, est)
    {
      var col := columns[k];
      assert columns[..k + 1] == columns[..k] + [col];
      KeepRowsStep(f.rows, f, columns[..k], col, nStd, est);
      if col in f.columns {
        rows := KeepRows(rows, f, [col], nStd, est);
      } else {
        KeepRowsUnlisted(rows, f, col, nStd, est);
      }
      k := k + 1;
    }
    assert columns[..k] == columns;
    out := Frame(f.columns, rows);
  }

  lemma {:induction false} KeepRowsUnlisted(rows: seq<Row>, f: Frame, c: string, nStd: real, est: Estimators)
    requires c !in f.columns
    ensures KeepRows(rows, f, [c], nStd, est) == rows
  {
    if rows != [] {
      KeepRowsUnlisted(rows[..|rows| - 1], f, c, nStd, est);
    }
  }

  /** The filtered rows are an order-preserving selection of the input: exactly the rows that are
      within n_std standard deviations of the mean in every listed column the frame has. */
  lemma {:induction false} KeepRowsSpec(rows: seq<Row>, f: Frame, cols: seq<string>, nStd: real, est: Estimators)
    ensures Subsequence(KeepRows(rows, f, cols, nStd, est), rows)
    ensures forall r :: r in KeepRows(rows, f, cols, nStd, est) <==> r in rows && PassesAll(f, r, cols, nStd, est)
  {
    if rows != [] {
      var init, last := rows[..|rows| - 1], rows[|rows| - 1];
      KeepRowsSpec(init, f, cols, nStd, est);
      assert rows == init + [last];
      var k := KeepRows(rows, f, cols, nStd, est);
      if PassesAll(f, last, cols, nStd, est) {
        assert k == KeepRows(init, f, cols, nStd, est) + [last];
        assert k[..|k| - 1] == KeepRows(init, f, cols, nStd, est);
      } else {
        assert k == KeepRows(init, f, cols, nStd, est);
        assert k == [] || Subsequence(k, rows[..|rows| - 1]);
      }
    }
  }

  /** Listing only columns the frame lacks keeps every row. */
  lemma FilterIgnoresAbsentColumns(f: Frame, cols: seq<string>, nStd: real, est: Estimators)
    requires forall c :: c in cols ==> c !in f.columns
    ensures KeepRows(f.rows, f, cols, nStd, est) == f.rows
  {
    KeepRowsAllPass(f.rows, f, cols, nStd, est);
  }

  lemma {:induction false} KeepRowsAllPass(rows: seq<Row>, f: Frame, cols: seq<string>, nStd: real, est: Estimators)
    requires forall r :: r in rows ==> PassesAll(f, r, cols, nStd, est)
    ensures KeepRows(rows, f, cols, nStd, est) == rows
  {
    if rows != [] {
      KeepRowsAllPass(rows[..|rows| - 1], f, cols, nStd, est);
      assert rows == rows[..|rows| - 1] + [rows[|rows| - 1]];
    }
  }

  // ----- `normalize_data` -----

  const MinMax: string := "minmax"
  const ZScore: string := "zscore"

  /** The name of the column normalize_data adds for col. */
  function NormalizedName(col: string): string {
    col + "_normalized"
  }

  lemma NormalizedNameInjective(a: string, b: string)
    requires NormalizedName(a) == NormalizedName(b)
    ensures a == b
  {
    assert a == NormalizedName(a)[..|a|];
  }

  /** One normalised cell: min-max scaling or a z-score over the whole input column; NaN where
      the input is NaN or the denominator is zero or NaN. */
  function NormalizedCell(f: Frame, col: string, how: string, x: Cell, est: Estimators): Cell {
    var xs := NumValues(f.rows, col);
    if !x.Num? then Undefined
    else if how == MinMax then
      var lo, hi := MinOf(xs), MaxOf(xs);
      if |xs| > 0 && hi > lo then Num((x.x - lo) / (hi - lo)) else Undefined
    else
      var std := est.std(xs);
      if |xs| >= 2 && std > 0.0 then Num((x.x - Mean(xs)) / std) else Undefined
  }

  /** Writes the normalised values of f's column col into g under the new name. */
  function AddNormalized(g: Frame, f: Frame, col: string, how: string, est: Estimators): (h: Frame)
    requires |g.rows| == |f.rows|
    ensures |h.rows| == |f.rows|
  {
    Frame(g.columns + {NormalizedName(col)},
      seq(|g.rows|, i requires 0 <= i < |g.rows| =>
        g.rows[i][NormalizedName(col) := NormalizedCell(f, col, how, Get(f.rows[i], col), est)]))
  }

  /** The copy after the loop has visited cols. */
  function NormalizeUpTo(f: Frame, cols: seq<string>, how: string, est: Estimators): (g: Frame)
    ensures |g.rows| == |f.rows|
  {
    if cols == [] then f
    else
      var g := NormalizeUpTo(f, cols[..|cols| - 1], how, est);
      var col := cols[|cols| - 1];
      if col in f.columns && (how == MinMax || how == ZScore) then AddNormalized(g, f, col, how, est)
      else g
  }

  /** `normalize_data(df, columns, how)`: adds one column per listed column to a copy. */
  method NormalizeData(f: Frame, columns: seq<string>, how: string, est: Estimators) returns (out: Frame)
    requires how == MinMax || how == ZScore ==>
      forall c :: c in columns && c in f.columns ==> NumericDtype(f.rows, c)
    ensures out == NormalizeUpTo(f, columns, how, est)
  {
    out := f;
    var k := 0;
    while k < |columns|
      invariant 0 <= k <= |columns|
      invariant out == NormalizeUpTo(f, columns[..k], how, est)
    {
      var col := columns[k];
      assert columns[..k + 1][..k] == columns[..k];
      if col in f.columns {
        if how == MinMax || how == ZScore {
          out := AddNormalized(out, f, col, how, est);
        }
      }
      k := k + 1;
    }
    assert columns[..k] == columns;
  }

  /** The columns a listed, present column gives rise to. */
  predicate Added(f: Frame, cols: seq<string>, how: string, d: string) {
    (how == MinMax || how == ZScore) &&
      exists c :: c in cols && c in f.columns && d == NormalizedName(c)
  }

  /** Normalising keeps every row and every column it does not add; it adds exactly the new name
      of each listed column the frame has, holding that column's normalised values. */
  lemma {:induction false} NormalizeSpec(f: Frame, cols: seq<string>, how: string, est: Estimators)
    ensures var g := NormalizeUpTo(f, cols, how, est);
      && |g.rows| == |f.rows|
      && (forall d :: d in g.columns <==> d in f.columns || Added(f, cols, how, d))
      && (forall i, d :: 0 <= i < |f.rows| && !Added(f, cols, how, d) ==> Get(g.rows[i], d) == Get(f.rows[i], d))
      && (forall i, c :: 0 <= i < |f.rows| && Added(f, cols, how, NormalizedName(c)) ==>
            Get(g.rows[i], NormalizedName(c)) == NormalizedCell(f, c, how, Get(f.rows[i], c), est))
  {
    if cols != [] {
      var init, col := cols[..|cols| - 1], cols[|cols| - 1];
      NormalizeSpec(f, init, how, est);
      assert forall c :: c in cols <==> c in init || c == col;
      var g := NormalizeUpTo(f, cols, how, est);
      var h := NormalizeUpTo(f, init, how, est);
      if col in f.columns && (how == MinMax || how == ZScore) {
        forall i, c | 0 <= i < |f.rows| && Added(f, cols, how, NormalizedName(c))
          ensures Get(g.rows[i], NormalizedName(c)) == NormalizedCell(f, c, how, Get(f.rows[i], c), est)
        {
          if NormalizedName(c) == NormalizedName(col) {
            NormalizedNameInjective(c, col);
          } else {
            var c' :| c' in cols && c' in f.columns && NormalizedName(c) == NormalizedName(c');
            NormalizedNameInjective(c, c');
            assert Added(f, init, how, NormalizedName(c));
          }
        }
        forall i, d | 0 <= i < |f.rows| && !Added(f, cols, how, d)
          ensures Get(g.rows[i], d) == Get(f.rows[i], d)
        {
          assert d != NormalizedName(col);
          assert !Added(f, init, how, d);
        }
        forall d | d in g.columns ensures d in f.columns || Added(f, cols, how, d) {
          if d != NormalizedName(col) {
            assert d in h.columns;
          }
        }
      } else {
        assert forall d :: Added(f, cols, how, d) <==> Added(f, init, how, d);
      }
    }
  }

  /** An unrecognised method returns the copy unchanged. */
  lemma {:induction false} NormalizeUnknownMethod(f: Frame, cols: seq<string>, how: string, est: Estimators)
    requires how != MinMax && how != ZScore
    ensures NormalizeUpTo(f, cols, how, est) == f
  {
    if cols != [] {
      NormalizeUnknownMethod(f, cols[..|cols| - 1], how, est);
    }
  }

  /** Min-max scaling of a column with at least two distinct numbers maps every number into
      [0, 1], the minimum to 0 and the maximum to 1. */
  lemma MinMaxRange(f: Frame, col: string, x: real, est: Estimators)
    requires x in NumValues(f.rows, col)
    requires MinOf(NumValues(f.rows, col)) < MaxOf(NumValues(f.rows, col))
    ensures var y := NormalizedCell(f, col, MinMax, Num(x), est);
      && y.Num? && 0.0 <= y.x <= 1.0
      && (x == MinOf(NumValues(f.rows, col)) ==> y.x == 0.0)
      && (x == MaxOf(NumValues(f.rows, col)) ==> y.x == 1.0)
  {
    var xs := NumValues(f.rows, col);
    MinOfIsLeast(xs);
    MaxOfIsGreatest(xs);
    var lo, hi := MinOf(xs), MaxOf(xs);
    assert lo <= x <= hi;
    UnitInterval(x - lo, hi - lo);
  }

  lemma UnitInterval(a: real, b: real)
    requires 0.0 <= a <= b && b > 0.0
    ensures 0.0 <= a / b <= 1.0
    ensures a == b ==> a / b == 1.0
  {
    var q := a / b;
    assert q * b == a;
  }

  /** The z-score of a number is its distance from the column mean in standard deviations. */
  lemma ZScoreValue(f: Frame, col: string, x: real, est: Estimators)
    requires |NumValues(f.rows, col)| >= 2 && est.std(NumValues(f.rows, col)) > 0.0
    ensures var y := NormalizedCell(f, col, ZScore, Num(x), est);
      y.Num? && y.x * est.std(NumValues(f.rows, col)) == x - Mean(NumValues(f.rows, col))
  {
  }

  // ----- `aggregate_by_species` -----

  /** The seven statistics `aggregate_by_species` reports per feature. */
  datatype AggStats = AggStats(mean: real, median: real, std: real, min: real, max: real, q25: real, q75: real)

  function Aggregate(rows: seq<Row>, col: string, est: Estimators): AggStats {
    var xs := NumValues(rows, col);
    AggStats(Mean(xs), est.median(xs), est.std(xs), MinOf(xs), MaxOf(xs), est.quantile(xs, 0.25), est.quantile(xs, 0.75))
  }

  /** `aggregate_by_species(df)`: one entry per distinct label, each mapping the four features to
      their statistics over that label's rows, with min <= mean <= max wherever the group has a number. */
  method AggregateBySpecies(f: Frame, est: Estimators) returns (agg: map<Cell, map<string, AggStats>>)
    requires SpeciesColumn in f.columns && FeaturesNumeric(f)
    ensures forall x :: x in agg <==> x in Labels(f.rows)
    ensures forall x :: x in agg ==> forall c :: c in agg[x] <==> c in FeatureColumns
    ensures forall x, c :: x in agg && c in agg[x] ==> agg[x][c] == Aggregate(WithLabel(f.rows, x), c, est)
    ensures forall x, c :: x in agg && c in agg[x] && |NumValues(WithLabel(f.rows, x), c)| > 0 ==>
      agg[x][c].min <= agg[x][c].mean <= agg[x][c].max
  {
    var labels := Unique(Labels(f.rows));
    UniqueIsDistinctAndComplete(Labels(f.rows));
    agg := map[];
    var i := 0;
    while i < |labels|
      invariant 0 <= i <= |labels|
      invariant forall x :: x in agg <==> x in labels[..i]
      invariant forall x :: x in agg ==> forall c :: c in agg[x] <==> c in FeatureColumns
      invariant forall x, c :: x in agg && c in agg[x] ==> agg[x][c] == Aggregate(WithLabel(f.rows, x), c, est)
    {
      var tag := labels[i];
      var rows := WithLabel(f.rows, tag);
      var stats: map<string, AggStats> := map[];
      var k := 0;
      while k < |FeatureColumns|
        invariant 0 <= k <= |FeatureColumns|
        invariant forall c :: c in stats <==> c in FeatureColumns[..k]
        invariant forall c :: c in stats ==> stats[c] == Aggregate(rows, c, est)
      {
        var col := FeatureColumns[k];
        assert FeatureColumns[..k + 1] == FeatureColumns[..k] + [col];
        stats := stats[col := Aggregate(rows, col, est)];
        k := k + 1;
      }
      assert FeatureColumns[..k] == FeatureColumns;
      assert labels[..i + 1] == labels[..i] + [tag];
      agg := agg[tag := stats];
      i := i + 1;
    }
    assert labels[..i] == labels;
    forall x, c | x in agg && c in agg[x] && |NumValues(WithLabel(f.rows, x), c)| > 0 {
      MeanBetweenMinAndMax(NumValues(WithLabel(f.rows, x), c));
    }
  }
}
