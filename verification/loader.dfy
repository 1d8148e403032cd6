/** The dataset cache of backend/app/data/loader.py: an `IrisDataLoader` holding the published
    frame and the time it was last loaded, filled lazily from a CSV source or from a built-in
    sample, and the species queries answered from it. Reading the file and the clock are
    parameters: `Source` is what reading the configured path yields, `now` is the current time
    and `parse` is the text-to-number conversion of `pd.to_numeric`. */
module Loader {
  import opened Wrappers
  import opened Text
  import opened Seqs
  import opened Stats
  import opened Schemas
  import opened Frames

  /** What reading the data path yields: no file there, a file pandas fails to read, or a frame. */
  datatype Source = Missing | Unreadable(reason: string) | Csv(frame: Frame)

  /** Why a load failed; every cause is reported as a `DataLoadError`. */
  datatype LoadCause =
    | ReadFailed(reason: string)
    | MissingColumns(missing: set<string>)
    | NotNumeric(col: string)

  /** The exceptions the loader's operations raise. `KeyError` and `TypeError` are pandas' own,
      raised when a frame published by a failed load lacks a column or holds text in a feature. */
  datatype DataError =
    | DataLoadError(cause: LoadCause)
    | DataNotFoundError(detail: string)
    | KeyError(key: string)
    | TypeError(col: string)

  // ----- the built-in sample -----

  const SampleSepalLength: seq<real> :=
    [5.1, 4.9, 4.7, 4.6, 5.0, 5.4, 4.6, 5.0, 4.4, 4.9, 6.3, 5.8, 7.1, 6.3, 6.5, 7.6, 4.9, 7.3, 6.7, 7.2]
  const SampleSepalWidth: seq<real> :=
    [3.5, 3.0, 3.2, 3.1, 3.6, 3.9, 3.4, 3.4, 2.9, 3.1, 3.3, 2.7, 3.0, 2.9, 3.0, 3.0, 2.5, 2.9, 2.5, 3.6]
  const SamplePetalLength: seq<real> :=
    [1.4, 1.4, 1.3, 1.5, 1.4, 1.7, 1.4, 1.5, 1.4, 1.5, 6.0, 5.1, 5.9, 5.6, 5.8, 6.6, 4.5, 6.3, 5.8, 6.1]
  const SamplePetalWidth: seq<real> :=
    [0.2, 0.2, 0.2, 0.2, 0.2, 0.4, 0.3, 0.2, 0.2, 0.1, 2.5, 1.9, 2.1, 1.8, 2.2, 2.1, 1.7, 1.8, 1.8, 2.5]

  function SampleRow(i: nat): Row
    requires i < 20
  {
    map[
      "sepal_length" := Num(SampleSepalLength[i]),
      "sepal_width" := Num(SampleSepalWidth[i]),
      "petal_length" := Num(SamplePetalLength[i]),
      "petal_width" := Num(SamplePetalWidth[i]),
      SpeciesColumn := Str(if i < 10 then "setosa" else "virginica")]
  }

  /** `_get_sample_data()`: twenty rows, ten setosa followed by ten virginica. */
  function SampleData(): (f: Frame)
    ensures |f.rows| == 20
    ensures f.columns == {"sepal_length", "sepal_width", "petal_length", "petal_width", SpeciesColumn}
    ensures forall i :: 0 <= i < 10 ==> Get(f.rows[i], SpeciesColumn) == Str("setosa")
    ensures forall i :: 10 <= i < 20 ==> Get(f.rows[i], SpeciesColumn) == Str("virginica")
  {
    Frame({"sepal_length", "sepal_width", "petal_length", "petal_width", SpeciesColumn},
      seq(20, i requires 0 <= i < 20 => SampleRow(i)))
  }

  // ----- `_validate_data` -----

  /** `pd.to_numeric` on one cell: numbers and NaN are kept, text is parsed or the call fails. */
  function ToNumericCell(c: Cell, parse: string -> Option<real>): Option<Cell> {
    match c
    case Str(s) => (match parse(s) case Some(x) => Some(Num(x)) case None => None)
    case _ => Some(c)
  }

  /** `pd.to_numeric(df[col])` succeeds: every cell converts. */
  predicate Coercible(rows: seq<Row>, col: string, parse: string -> Option<real>) {
    forall i :: 0 <= i < |rows| ==> ToNumericCell(Get(rows[i], col), parse).Some?
  }

  /** `df[col] = pd.to_numeric(df[col])`: the column converted in place, every other column kept. */
  function CoerceColumn(rows: seq<Row>, col: string, parse: string -> Option<real>): (r: seq<Row>)
    requires Coercible(rows, col, parse)
    ensures |r| == |rows| && NumericDtype(r, col)
    ensures forall i, d :: 0 <= i < |rows| && d != col ==> Get(r[i], d) == Get(rows[i], d)
    ensures forall i :: 0 <= i < |rows| && Get(rows[i], col).Num? ==> Get(r[i], col) == Get(rows[i], col)
  {
    seq(|rows|, i requires 0 <= i < |rows| => rows[i][col := ToNumericCell(Get(rows[i], col), parse).value])
  }

  /** The frame after validation, which converts columns in place, and the failure if any. */
  datatype Validation = Validation(frame: Frame, error: Option<LoadCause>)

  /** The loop over the feature columns: a non-numeric column is converted, or validation stops
      at the first column that does not convert, keeping the columns converted before it. */
  function CoerceFeatures(f: Frame, cols: seq<string>, parse: string -> Option<real>): Validation
    decreases |cols|
  {
    if cols == [] then Validation(f, None)
    else if NumericDtype(f.rows, cols[0]) then CoerceFeatures(f, cols[1..], parse)
    else if !Coercible(f.rows, cols[0], parse) then Validation(f, Some(NotNumeric(cols[0])))
    else CoerceFeatures(Frame(f.columns, CoerceColumn(f.rows, cols[0], parse)), cols[1..], parse)
  }

  /** `set(required_cols) - set(df.columns)`. */
  function MissingRequired(f: Frame): set<string> {
    set c | c in RequiredColumns && c !in f.columns
  }

  /** `_validate_data(df)`, with the frame it leaves behind. */
  function Validate(f: Frame, parse: string -> Option<real>): Validation {
    var missing := MissingRequired(f);
    if missing != {} then Validation(f, Some(MissingColumns(missing)))
    else CoerceFeatures(f, FeatureColumns, parse)
  }

  /** A numeric column converts trivially. */
  lemma NumericIsCoercible(rows: seq<Row>, col: string, parse: string -> Option<real>)
    requires NumericDtype(rows, col)
    ensures Coercible(rows, col, parse)
  {
    forall i | 0 <= i < |rows| ensures ToNumericCell(Get(rows[i], col), parse).Some? {
      assert !Get(rows[i], col).Str?;
    }
  }

  /** The feature loop keeps the column set, the row count, every column it does not list and
      every number. */
  lemma {:induction false} CoerceFeaturesKeeps(f: Frame, cols: seq<string>, parse: string -> Option<real>)
    decreases |cols|
    ensures var v := CoerceFeatures(f, cols, parse);
      && v.frame.columns == f.columns
      && |v.frame.rows| == |f.rows|
      && (forall i, d :: 0 <= i < |f.rows| && d !in cols ==> Get(v.frame.rows[i], d) == Get(f.rows[i], d))
      && (forall i, d :: 0 <= i < |f.rows| && Get(f.rows[i], d).Num? ==> Get(v.frame.rows[i], d) == Get(f.rows[i], d))
  {
    if cols != [] {
      var c := cols[0];
      assert forall d :: d in cols[1..] ==> d in cols;
      if NumericDtype(f.rows, c) {
        CoerceFeaturesKeeps(f, cols[1..], parse);
      } else if Coercible(f.rows, c, parse) {
        var g := Frame(f.columns, CoerceColumn(f.rows, c, parse));
        CoerceFeaturesKeeps(g, cols[1..], parse);
      }
    }
  }

  /** Converting one column leaves the other columns as convertible as they were. */
  lemma CoerceColumnKeepsOthersCoercible(rows: seq<Row>, c: string, d: string, parse: string -> Option<real>)
    requires Coercible(rows, c, parse) && d != c
    ensures Coercible(CoerceColumn(rows, c, parse), d, parse) <==> Coercible(rows, d, parse)
  {
    var r := CoerceColumn(rows, c, parse);
    assert forall i :: 0 <= i < |rows| ==> Get(r[i], d) == Get(rows[i], d);
  }

  /** The feature loop succeeds exactly when every listed column converts, and then leaves every
      listed column numeric. */
  lemma {:induction false} CoerceFeaturesSucceeds(f: Frame, cols: seq<string>, parse: string -> Option<real>)
    requires Distinct(cols)
    decreases |cols|
    ensures var v := CoerceFeatures(f, cols, parse);
      && (v.error.None? <==> forall c :: c in cols ==> Coercible(f.rows, c, parse))
      && (v.error.None? ==> forall c :: c in cols ==> NumericDtype(v.frame.rows, c))
  {
    if cols != [] {
      var c := cols[0];
      assert forall j :: 1 <= j < |cols| ==> cols[j] == cols[1..][j - 1];
      assert forall d :: d in cols[1..] ==> d in cols && d != c;
      assert forall d :: d in cols ==> d == c || d in cols[1..];
      if NumericDtype(f.rows, c) {
        NumericIsCoercible(f.rows, c, parse);
        CoerceFeaturesSucceeds(f, cols[1..], parse);
        CoerceFeaturesKeeps(f, cols[1..], parse);
        var v := CoerceFeatures(f, cols[1..], parse);
        assert c !in cols[1..];
        forall i | 0 <= i < |f.rows| ensures !Get(v.frame.rows[i], c).Str? {
          assert Get(v.frame.rows[i], c) == Get(f.rows[i], c);
        }
      } else if Coercible(f.rows, c, parse) {
        var g := Frame(f.columns, CoerceColumn(f.rows, c, parse));
        CoerceFeaturesSucceeds(g, cols[1..], parse);
        CoerceFeaturesKeeps(g, cols[1..], parse);
        forall d | d in cols[1..] ensures Coercible(g.rows, d, parse) <==> Coercible(f.rows, d, parse) {
          CoerceColumnKeepsOthersCoercible(f.rows, c, d, parse);
        }
        var v := CoerceFeatures(g, cols[1..], parse);
        if v.error.None? {
          assert c !in cols[1..];
          forall i | 0 <= i < |f.rows| ensures !Get(v.frame.rows[i], c).Str? {
            assert Get(v.frame.rows[i], c) == Get(g.rows[i], c);
          }
        }
      }
    }
  }

  /** A failing feature loop names the first listed column that does not convert. */
  lemma {:induction false} CoerceFeaturesFailsAtFirst(f: Frame, cols: seq<string>, parse: string -> Option<real>)
    requires Distinct(cols)
    requires CoerceFeatures(f, cols, parse).error.Some?
    decreases |cols|
    ensures exists k :: (0 <= k < |cols| && CoerceFeatures(f, cols, parse).error.value == NotNumeric(cols[k]) &&
      !Coercible(f.rows, cols[k], parse) && forall j :: 0 <= j < k ==> Coercible(f.rows, cols[j], parse))
  {
    var c := cols[0];
    assert forall j :: 1 <= j < |cols| ==> cols[j] == cols[1..][j - 1];
    assert forall d :: d in cols[1..] ==> d in cols && d != c;
    if NumericDtype(f.rows, c) {
      NumericIsCoercible(f.rows, c, parse);
      CoerceFeaturesFailsAtFirst(f, cols[1..], parse);
      var k :| 0 <= k < |cols[1..]| && CoerceFeatures(f, cols[1..], parse).error.value == NotNumeric(cols[1..][k]) &&
        !Coercible(f.rows, cols[1..][k], parse) && forall j :: 0 <= j < k ==> Coercible(f.rows, cols[1..][j], parse);
      assert forall j :: 0 <= j < k + 1 ==> Coercible(f.rows, cols[j], parse);
    } else if !Coercible(f.rows, c, parse) {
      assert CoerceFeatures(f, cols, parse).error.value == NotNumeric(cols[0]);
    } else {
      var g := Frame(f.columns, CoerceColumn(f.rows, c, parse));
      CoerceFeaturesFailsAtFirst(g, cols[1..], parse);
      var k :| 0 <= k < |cols[1..]| && CoerceFeatures(g, cols[1..], parse).error.value == NotNumeric(cols[1..][k]) &&
        !Coercible(g.rows, cols[1..][k], parse) && forall j :: 0 <= j < k ==> Coercible(g.rows, cols[1..][j], parse);
      CoerceColumnKeepsOthersCoercible(f.rows, c, cols[k + 1], parse);
      forall j | 0 <= j < k + 1 ensures Coercible(f.rows, cols[j], parse) {
        if j > 0 {
          CoerceColumnKeepsOthersCoercible(f.rows, c, cols[j], parse);
        }
      }
    }
  }

  /** Validation succeeds exactly when all five required columns are present and every feature
      column converts to numbers; it never drops, adds or reorders rows, never touches the species
      labels, keeps every number, and on success leaves the four feature columns numeric. */
  lemma ValidateSpec(f: Frame, parse: string -> Option<real>)
    ensures var v := Validate(f, parse);
      && v.frame.columns == f.columns
      && |v.frame.rows| == |f.rows|
      && Labels(v.frame.rows) == Labels(f.rows)
      && (forall i, d :: 0 <= i < |f.rows| && Get(f.rows[i], d).Num? ==> Get(v.frame.rows[i], d) == Get(f.rows[i], d))
      && (v.error.None? <==>
            (forall c :: c in RequiredColumns ==> c in f.columns) &&
            (forall c :: c in FeatureColumns ==> Coercible(f.rows, c, parse)))
      && (v.error.None? ==> forall c :: c in FeatureColumns ==> NumericDtype(v.frame.rows, c))
  {
    var v := Validate(f, parse);
    if MissingRequired(f) != {} {
      var c :| c in MissingRequired(f);
      assert c in RequiredColumns && c !in f.columns;
    } else {
      forall c | c in RequiredColumns ensures c in f.columns {
        assert c !in MissingRequired(f);
      }
      assert Distinct(FeatureColumns);
      CoerceFeaturesKeeps(f, FeatureColumns, parse);
      CoerceFeaturesSucceeds(f, FeatureColumns, parse);
      assert SpeciesColumn !in FeatureColumns;
      assert Labels(v.frame.rows) == Labels(f.rows);
    }
  }

  /** The built-in sample passes validation unchanged. */
  lemma SampleDataIsValid(parse: string -> Option<real>)
    ensures Validate(SampleData(), parse) == Validation(SampleData(), None)
  {
    var f := SampleData();
    assert MissingRequired(f) == {};
    forall c | c in FeatureColumns ensures NumericDtype(f.rows, c) {
      forall i | 0 <= i < 20 ensures !Get(f.rows[i], c).Str? {
        assert f.rows[i] == SampleRow(i);
      }
    }
    assert NumericDtype(f.rows, FeatureColumns[0]);
    assert NumericDtype(f.rows, FeatureColumns[1]);
    assert NumericDtype(f.rows, FeatureColumns[2]);
    assert NumericDtype(f.rows, FeatureColumns[3]);
  }

  // ----- `load_data` -----

  /** The loader's two fields after a load, and what the load returned or raised. */
  datatype Loaded = Loaded(data: Option<Frame>, lastLoaded: Option<int>, result: Result<Frame, DataError>)

  /** `load_data(force_reload)` from the state (data, lastLoaded). */
  function Load(data: Option<Frame>, lastLoaded: Option<int>, force: bool, source: Source, now: int,
                parse: string -> Option<real>): Loaded
  {
    if data.Some? && !force then Loaded(data, lastLoaded, Success(data.value))
    else match source
      case Missing => Loaded(Some(SampleData()), Some(now), Success(SampleData()))
      case Unreadable(reason) => Loaded(data, lastLoaded, Failure(DataLoadError(ReadFailed(reason))))
      case Csv(f) =>
        var v := Validate(f, parse);
        if v.error.None? then Loaded(Some(v.frame), Some(now), Success(v.frame))
        else Loaded(Some(v.frame), lastLoaded, Failure(DataLoadError(v.error.value)))
  }

  /** A cached frame is returned as is, without touching either field, unless a reload is forced. */
  lemma LoadUsesCache(data: Option<Frame>, lastLoaded: Option<int>, source: Source, now: int,
                      parse: string -> Option<real>)
    requires data.Some?
    ensures Load(data, lastLoaded, false, source, now, parse) == Loaded(data, lastLoaded, Success(data.value))
  {
  }

  /** A load that returns publishes what it returns and stamps the time; one that fails leaves the
      timestamp alone. Without a file the sample is published. */
  lemma LoadOutcomes(data: Option<Frame>, lastLoaded: Option<int>, force: bool, source: Source, now: int,
                     parse: string -> Option<real>)
    requires data.None? || force
    ensures var l := Load(data, lastLoaded, force, source, now, parse);
      && (l.result.Success? ==> l.data == Some(l.result.value) && l.lastLoaded == Some(now))
      && (l.result.Failure? ==> l.lastLoaded == lastLoaded && l.result.error.DataLoadError?)
      && (source.Missing? ==> l.result == Success(SampleData()))
      && (source.Unreadable? ==> l.data == data)
  {
  }

  /** Reading a file replaces the cached frame even when validation then fails, with the frame as
      validation left it: same rows, same labels, and a valid frame exactly when the load returns. */
  lemma LoadFromCsv(data: Option<Frame>, lastLoaded: Option<int>, force: bool, f: Frame, now: int,
                    parse: string -> Option<real>)
    requires data.None? || force
    ensures var l := Load(data, lastLoaded, force, Csv(f), now, parse);
      && l.data.Some?
      && |l.data.value.rows| == |f.rows|
      && Labels(l.data.value.rows) == Labels(f.rows)
      && (l.result.Success? <==>
            (forall c :: c in RequiredColumns ==> c in f.columns) &&
            (forall c :: c in FeatureColumns ==> Coercible(f.rows, c, parse)))
      && (l.result.Success? ==> forall c :: c in FeatureColumns ==> NumericDtype(l.data.value.rows, c))
  {
    ValidateSpec(f, parse);
  }

  // ----- the queries -----

  /** The rows `get_species_data(species)` returns once data is loaded. */
  function SpeciesRows(f: Frame, species: string): Result<seq<Row>, DataError> {
    var requested := SpeciesFromValue(Lower(species));
    if requested.None? then Failure(DataNotFoundError("Invalid species: " + species))
    else if SpeciesColumn !in f.columns then Failure(KeyError(SpeciesColumn))
    else
      var exact := WithLabel(f.rows, Str(requested.value.Value()));
      var filtered := if exact != [] then exact else WithLabelIgnoringCase(f.rows, species);
      if filtered == [] then Failure(DataNotFoundError("No data found for species: " + species))
      else Success(filtered)
  }

  /** A name that is not a species, ignoring case, is refused before any filtering. */
  lemma SpeciesRowsRefusesUnknownNames(f: Frame, species: string)
    requires Lower(species) !in SpeciesValues
    ensures SpeciesRows(f, species) == Failure(DataNotFoundError("Invalid species: " + species))
  {
  }

  /** A result is a non-empty, order-preserving selection of the rows whose labels equal the
      requested name ignoring case. */
  lemma SpeciesRowsSelects(f: Frame, species: string)
    requires SpeciesRows(f, species).Success?
    ensures var rows := SpeciesRows(f, species).value;
      && |rows| > 0
      && Subsequence(rows, f.rows)
      && forall row :: row in rows ==>
           Get(row, SpeciesColumn).Str? && Lower(Get(row, SpeciesColumn).s) == Lower(species)
  {
    var lower := Lower(species);
    var tag := Str(lower);
    assert SpeciesFromValue(lower).value.Value() == lower;
    WithLabelSpec(f.rows, tag);
    WithLabelIgnoringCaseSpec(f.rows, species);
    LowerOfLowercaseValue(lower);
  }

  /** Some row's label is a string equal to name ignoring case. */
  predicate HasMatch(rows: seq<Row>, name: string) {
    exists i :: 0 <= i < |rows| && Get(rows[i], SpeciesColumn).Str? &&
      Lower(Get(rows[i], SpeciesColumn).s) == Lower(name)
  }

  /** For a known species and a frame with labels, the query succeeds exactly when some row's
      label equals the name ignoring case. */
  lemma SpeciesRowsSucceedsIffMatch(f: Frame, species: string)
    requires Lower(species) in SpeciesValues && SpeciesColumn in f.columns
    ensures SpeciesRows(f, species).Success? <==> HasMatch(f.rows, species)
  {
    if SpeciesRows(f, species).Success? {
      SuccessHasMatch(f, species);
    }
    if HasMatch(f.rows, species) {
      MatchGivesSuccess(f, species);
    }
  }

  lemma SuccessHasMatch(f: Frame, species: string)
    requires SpeciesRows(f, species).Success?
    ensures HasMatch(f.rows, species)
  {
    SpeciesRowsSelects(f, species);
    var rows := SpeciesRows(f, species).value;
    assert rows[0] in rows;
    SubsequenceMembers(rows, f.rows);
    var i :| 0 <= i < |f.rows| && f.rows[i] == rows[0];
  }

  lemma MatchGivesSuccess(f: Frame, species: string)
    requires Lower(species) in SpeciesValues && SpeciesColumn in f.columns
    requires HasMatch(f.rows, species)
    ensures SpeciesRows(f, species).Success?
  {
    var lower := Lower(species);
    assert SpeciesFromValue(lower).value.Value() == lower;
    var exact := WithLabel(f.rows, Str(lower));
    if exact == [] {
      var i :| 0 <= i < |f.rows| && Get(f.rows[i], SpeciesColumn).Str? &&
        Lower(Get(f.rows[i], SpeciesColumn).s) == lower;
      WithLabelIgnoringCaseMembers(f.rows, species);
      assert f.rows[i] in WithLabelIgnoringCase(f.rows, species);
    }
  }

  /** When some label is exactly the lower-case name, the exact matches are returned. */
  lemma SpeciesRowsPrefersExactMatch(f: Frame, species: string)
    requires Lower(species) in SpeciesValues && SpeciesColumn in f.columns
    requires Str(Lower(species)) in Labels(f.rows)
    ensures SpeciesRows(f, species) == Success(WithLabel(f.rows, Str(Lower(species))))
  {
    var lower := Lower(species);
    assert SpeciesFromValue(lower).value.Value() == lower;
    WithLabelOfPresentLabel(f.rows, Str(lower));
  }

  /** When no label is exactly the lower-case name, the rows whose label matches it ignoring case
      are returned instead. */
  lemma SpeciesRowsFallsBackToCaseInsensitive(f: Frame, species: string)
    requires Lower(species) in SpeciesValues && SpeciesColumn in f.columns
    requires Str(Lower(species)) !in Labels(f.rows)
    requires HasMatch(f.rows, species)
    ensures SpeciesRows(f, species) == Success(WithLabelIgnoringCase(f.rows, species))
  {
    var lower := Lower(species);
    assert SpeciesFromValue(lower).value.Value() == lower;
    CountAbsent(Labels(f.rows), Str(lower));
    WithLabelCount(f.rows, Str(lower));
    MatchGivesSuccess(f, species);
  }

  /** A name that is a species only ignoring case, such as "Setosa", is served with rows, yet it
      is not itself an enum value: the response built from it labels its points with a value that
      `SpeciesEnum` refuses. */
  lemma MixedCaseNameIsServed(f: Frame, species: string)
    requires Lower(species) in SpeciesValues && Lower(species) != species
    requires SpeciesColumn in f.columns && HasMatch(f.rows, species)
    ensures SpeciesRows(f, species).Success? && |SpeciesRows(f, species).value| > 0
    ensures species !in SpeciesValues
  {
    SpeciesRowsSucceedsIffMatch(f, species);
    SpeciesRowsSelects(f, species);
    if species in SpeciesValues {
      LowerOfLowercaseValue(species);
    }
  }

  /** A species value is its own lower-case form. */
  lemma LowerOfLowercaseValue(v: string)
    requires v in SpeciesValues
    ensures Lower(v) == v
  {
    LowerOfLowercase(v);
  }

  /** `self._data['species'].unique().tolist()`. */
  function AllSpecies(f: Frame): Result<seq<Cell>, DataError> {
    if SpeciesColumn !in f.columns then Failure(KeyError(SpeciesColumn))
    else Success(Unique(Labels(f.rows)))
  }

  /** Every label appears exactly once, in order of first appearance. */
  lemma AllSpeciesSpec(f: Frame)
    requires SpeciesColumn in f.columns
    ensures var r := AllSpecies(f).value;
      && Distinct(r)
      && (forall x :: x in r <==> x in Labels(f.rows))
      && (forall i, j :: 0 <= i < j < |r| ==> FirstIndex(Labels(f.rows), r[i]) < FirstIndex(Labels(f.rows), r[j]))
  {
    UniqueIsDistinctAndComplete(Labels(f.rows));
    UniqueInFirstAppearanceOrder(Labels(f.rows));
  }

  /** The four statistics `get_summary_statistics` reports for one column. */
  datatype ColumnSummary = ColumnSummary(mean: real, std: real, min: real, max: real)

  /** One entry of the summary: the group's row count and its per-column statistics. */
  datatype SpeciesSummary = SpeciesSummary(count: nat, statistics: map<string, ColumnSummary>)

  function Describe(rows: seq<Row>, col: string, est: Estimators): ColumnSummary {
    var xs := NumValues(rows, col);
    ColumnSummary(Mean(xs), est.std(xs), MinOf(xs), MaxOf(xs))
  }

  /** The statistics dictionary of one group: a missing column raises KeyError and a column holding
      text raises TypeError, at the first such column. */
  function GroupStatistics(f: Frame, rows: seq<Row>, cols: seq<string>, est: Estimators)
    : Result<map<string, ColumnSummary>, DataError>
  {
    if cols == [] then Success(map[])
    else if cols[0] !in f.columns then Failure(KeyError(cols[0]))
    else if !NumericDtype(rows, cols[0]) then Failure(TypeError(cols[0]))
    else
      match GroupStatistics(f, rows, cols[1..], est)
      case Failure(e) => Failure(e)
      case Success(m) => Success(m[cols[0] := Describe(rows, cols[0], est)])
  }

  /** The summary entries for the first labels in order; the first failing group's error wins. */
  function SummaryOf(f: Frame, labels: seq<Cell>, est: Estimators): Result<map<Cell, SpeciesSummary>, DataError> {
    if labels == [] then Success(map[])
    else
      var tag := labels[|labels| - 1];
      match SummaryOf(f, labels[..|labels| - 1], est)
      case Failure(e) => Failure(e)
      case Success(m) =>
        var rows := WithLabel(f.rows, tag);
        match GroupStatistics(f, rows, FeatureColumns, est)
        case Failure(e) => Failure(e)
        case Success(stats) => Success(m[tag := SpeciesSummary(|rows|, stats)])
  }

  /** `get_summary_statistics()` on a loaded frame. */
  function Summary(f: Frame, est: Estimators): Result<map<Cell, SpeciesSummary>, DataError> {
    if SpeciesColumn !in f.columns then Failure(KeyError(SpeciesColumn))
    else SummaryOf(f, Unique(Labels(f.rows)), est)
  }

  /** Each group's statistics cover exactly the listed columns, and the mean of a column lies
      between its minimum and maximum whenever the column has a number. */
  lemma {:induction false} GroupStatisticsSpec(f: Frame, rows: seq<Row>, cols: seq<string>, est: Estimators)
    requires GroupStatistics(f, rows, cols, est).Success?
    ensures var m := GroupStatistics(f, rows, cols, est).value;
      && (forall c :: c in m <==> c in cols)
      && (forall c :: c in m ==> m[c] == Describe(rows, c, est))
      && (forall c :: c in m && |NumValues(rows, c)| > 0 ==> m[c].min <= m[c].mean <= m[c].max)
  {
    if cols != [] {
      GroupStatisticsSpec(f, rows, cols[1..], est);
      var m := GroupStatistics(f, rows, cols, est).value;
      forall c | c in m && |NumValues(rows, c)| > 0 ensures m[c].min <= m[c].mean <= m[c].max {
        MeanBetweenMinAndMax(NumValues(rows, c));
      }
    }
  }

  /** The summary has one entry per label listed, with that label's row count and statistics. */
  lemma {:induction false} SummaryOfSpec(f: Frame, labels: seq<Cell>, est: Estimators)
    requires SummaryOf(f, labels, est).Success?
    ensures var m := SummaryOf(f, labels, est).value;
      && (forall x :: x in m <==> x in labels)
      && (forall x :: x in m ==>
            m[x].count == |WithLabel(f.rows, x)| &&
            GroupStatistics(f, WithLabel(f.rows, x), FeatureColumns, est) == Success(m[x].statistics))
  {
    if labels != [] {
      var init, tag := labels[..|labels| - 1], labels[|labels| - 1];
      SummaryOfSpec(f, init, est);
      assert labels == init + [tag];
    }
  }

  /** The counts of the entries of m listed in keys, summed. */
  function SumOfCounts(keys: seq<Cell>, m: map<Cell, SpeciesSummary>): nat {
    if keys == [] then 0
    else
      var k := keys[|keys| - 1];
      SumOfCounts(keys[..|keys| - 1], m) + (if k in m then m[k].count else 0)
  }

  lemma {:induction false} SumOfCountsIsSumCounts(keys: seq<Cell>, m: map<Cell, SpeciesSummary>, labels: seq<Cell>)
    requires forall k :: k in keys ==> k in m && m[k].count == Count(labels, k)
    ensures SumOfCounts(keys, m) == SumCounts(keys, labels)
  {
    if keys != [] {
      SumOfCountsIsSumCounts(keys[..|keys| - 1], m, labels);
    }
  }

  /** `get_summary_statistics` has one entry per distinct label, each counting that label's rows;
      when no label is NaN the counts add up to the number of rows. */
  lemma SummarySpec(f: Frame, est: Estimators)
    requires Summary(f, est).Success?
    ensures var m := Summary(f, est).value;
      && (forall x :: x in m <==> x in Labels(f.rows))
      && (forall x :: x in m ==> m[x].count == if x.Undefined? then 0 else Count(Labels(f.rows), x))
      && ((forall i :: 0 <= i < |f.rows| ==> !Labels(f.rows)[i].Undefined?) ==>
            SumOfCounts(Unique(Labels(f.rows)), m) == |f.rows|)
  {
    var labels := Labels(f.rows);
    var m := Summary(f, est).value;
    UniqueIsDistinctAndComplete(labels);
    SummaryOfSpec(f, Unique(labels), est);
    forall x | x in m ensures m[x].count == if x.Undefined? then 0 else Count(labels, x) {
      WithLabelSpec(f.rows, x);
    }
    if forall i :: 0 <= i < |f.rows| ==> !labels[i].Undefined? {
      forall k | k in Unique(labels) ensures k in m && m[k].count == Count(labels, k) {
        assert !k.Undefined?;
      }
      SumOfCountsIsSumCounts(Unique(labels), m, labels);
      SumCountsOfUnique(labels);
    }
  }

  /** One more label whose group has statistics adds that label's entry to the summary. */
  lemma SummaryOfStep(f: Frame, labels: seq<Cell>, i: nat, summary: map<Cell, SpeciesSummary>, est: Estimators)
    requires i < |labels| && SummaryOf(f, labels[..i], est) == Success(summary)
    requires GroupStatistics(f, WithLabel(f.rows, labels[i]), FeatureColumns, est).Success?
    ensures SummaryOf(f, labels[..i + 1], est) ==
      Success(summary[labels[i] := SpeciesSummary(|WithLabel(f.rows, labels[i])|,
                                                  GroupStatistics(f, WithLabel(f.rows, labels[i]), FeatureColumns, est).value)])
  {
    assert labels[..i + 1][..i] == labels[..i];
  }

  /** The loop of `get_summary_statistics()` over a loaded frame: one entry per distinct label,
      in order of first appearance. */
  method SummarizeFrame(f: Frame, est: Estimators) returns (r: Result<map<Cell, SpeciesSummary>, DataError>)
    ensures r == Summary(f, est)
  {
    if SpeciesColumn !in f.columns {
      return Failure(KeyError(SpeciesColumn));
    }
    var labels := Unique(Labels(f.rows));
    var summary := map[];
    var i := 0;
    while i < |labels|
      invariant 0 <= i <= |labels|
      invariant SummaryOf(f, labels[..i], est) == Success(summary)
    {
      var tag := labels[i];
      var rows := WithLabel(f.rows, tag);
      var stats := GroupStatistics(f, rows, FeatureColumns, est);
      assert labels[..i + 1][..i] == labels[..i];
      if stats.Failure? {
        r := Failure(stats.error);
        assert SummaryOf(f, labels[..i + 1], est) == r;
        SummaryOfFailureSticks(f, labels, i + 1, est);
        return;
      }
      SummaryOfStep(f, labels, i, summary, est);
      summary := summary[tag := SpeciesSummary(|rows|, stats.value)];
      i := i + 1;
    }
    assert labels[..i] == labels;
    r := Success(summary);
  }

  // ----- the loader object -----

  class IrisDataLoader {
    const dataPath: string
    var data: Option<Frame>
    var lastLoaded: Option<int>

    constructor(dataPath: string)
      ensures this.dataPath == dataPath && data == None && lastLoaded == None
    {
      this.dataPath := dataPath;
      data := None;
      lastLoaded := None;
    }

    /** `is_loaded`. */
    predicate IsLoaded()
      reads this
    {
      data.Some?
    }

    /** `_validate_data(self._data)`: checks the required columns, then converts each non-numeric
        feature column in place, stopping at the first that does not convert. */
    method ValidateData(parse: string -> Option<real>) returns (err: Option<LoadCause>)
      requires data.Some?
      modifies this
      ensures data.Some? && Validation(data.value, err) == Validate(old(data).value, parse)
      ensures lastLoaded == old(lastLoaded)
    {
      var missing := MissingRequired(data.value);
      if missing != {} {
        return Some(MissingColumns(missing));
      }
      var i := 0;
      while i < |FeatureColumns|
        invariant 0 <= i <= |FeatureColumns|
        invariant data.Some? && lastLoaded == old(lastLoaded)
        invariant CoerceFeatures(data.value, FeatureColumns[i..], parse) == Validate(old(data).value, parse)
      {
        var col := FeatureColumns[i];
        if !NumericDtype(data.value.rows, col) {
          if !Coercible(data.value.rows, col, parse) {
            return Some(NotNumeric(col));
          }
          data := Some(Frame(data.value.columns, CoerceColumn(data.value.rows, col, parse)));
        }
        i := i + 1;
      }
      err := None;
    }

    /** `load_data(force_reload)`. */
    method LoadData(force: bool, source: Source, now: int, parse: string -> Option<real>)
      returns (r: Result<Frame, DataError>)
      modifies this
      ensures Loaded(data, lastLoaded, r) == Load(old(data), old(lastLoaded), force, source, now, parse)
    {
      if data.Some? && !force {
        return Success(data.value);
      }
      match source {
        case Missing =>
          data := Some(SampleData());
          lastLoaded := Some(now);
          r := Success(data.value);
        case Unreadable(reason) =>
          r := Failure(DataLoadError(ReadFailed(reason)));
        case Csv(f) =>
          data := Some(f);
          var err := ValidateData(parse);
          if err.Some? {
            return Failure(DataLoadError(err.value));
          }
          lastLoaded := Some(now);
          r := Success(data.value);
      }
    }

    /** `get_species_data(species)`: loads lazily, then filters. */
    method GetSpeciesData(species: string, source: Source, now: int, parse: string -> Option<real>)
      returns (r: Result<seq<Row>, DataError>)
      modifies this
      ensures var l := Load(old(data), old(lastLoaded), false, source, now, parse);
        && data == l.data && lastLoaded == l.lastLoaded
        && r == match l.result case Failure(e) => Failure(e) case Success(f) => SpeciesRows(f, species)
    {
      if !IsLoaded() {
        var loaded := LoadData(false, source, now, parse);
        if loaded.Failure? {
          return Failure(loaded.error);
        }
      }
      r := SpeciesRows(data.value, species);
    }

    /** `get_all_species()`: loads lazily, then lists the distinct labels. */
    method GetAllSpecies(source: Source, now: int, parse: string -> Option<real>)
      returns (r: Result<seq<Cell>, DataError>)
      modifies this
      ensures var l := Load(old(data), old(lastLoaded), false, source, now, parse);
        && data == l.data && lastLoaded == l.lastLoaded
        && r == match l.result case Failure(e) => Failure(e) case Success(f) => AllSpecies(f)
    {
      if !IsLoaded() {
        var loaded := LoadData(false, source, now, parse);
        if loaded.Failure? {
          return Failure(loaded.error);
        }
      }
      r := AllSpecies(data.value);
    }

    /** `get_summary_statistics()`: loads lazily, then fills one entry per distinct label. */
    method GetSummaryStatistics(source: Source, now: int, parse: string -> Option<real>, est: Estimators)
      returns (r: Result<map<Cell, SpeciesSummary>, DataError>)
      modifies this
      ensures var l := Load(old(data), old(lastLoaded), false, source, now, parse);
        && data == l.data && lastLoaded == l.lastLoaded
        && r == match l.result case Failure(e) => Failure(e) case Success(f) => Summary(f, est)
    {
      if !IsLoaded() {
        var loaded := LoadData(false, source, now, parse);
        if loaded.Failure? {
          return Failure(loaded.error);
        }
      }
      r := SummarizeFrame(data.value, est);
    }

    /** The admin `clear_cache` action: both fields reset. */
    method Clear()
      modifies this
      ensures data == None && lastLoaded == None
    {
      data := None;
      lastLoaded := None;
    }
  }

  /** Once a prefix of the labels fails, the whole summary fails with the same error. */
  lemma {:induction false} SummaryOfFailureSticks(f: Frame, labels: seq<Cell>, k: nat, est: Estimators)
    requires k <= |labels| && SummaryOf(f, labels[..k], est).Failure?
    ensures SummaryOf(f, labels, est) == SummaryOf(f, labels[..k], est)
    decreases |labels| - k
  {
    if k < |labels| {
      assert labels[..k + 1][..k] == labels[..k];
      SummaryOfFailureSticks(f, labels, k + 1, est);
    } else {
      assert labels[..k] == labels;
    }
  }

  /** `get_data_loader(data_path)`: the process-wide loader, replaced whenever a path is given. */
  class LoaderRegistry {
    var loader: IrisDataLoader?

    constructor()
      ensures loader == null
    {
      loader := null;
    }

    method GetDataLoader(dataPath: Option<string>) returns (l: IrisDataLoader)
      modifies this
      ensures loader == l
      ensures old(loader) != null && dataPath.None? ==> l == old(loader)
      ensures old(loader) == null || dataPath.Some? ==>
        && fresh(l) && l.data == None && l.lastLoaded == None
        && l.dataPath == if dataPath.Some? && dataPath.value != "" then dataPath.value else "data/iris.csv"
    {
      if loader == null || dataPath.Some? {
        var path := if dataPath.Some? && dataPath.value != "" then dataPath.value else "data/iris.csv";
        loader := new IrisDataLoader(path);
      }
      l := loader;
    }
  }
}
