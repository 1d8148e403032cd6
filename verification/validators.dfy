/** Input validation and access decisions of backend/app/core/validators.py: `DataValidator`
    (password, species, numeric range, data point, pagination, file name) and
    `AccessValidator` (species access, admin access, accessible species). */
module Validators {
  import opened Wrappers
  import opened Text
  import opened Schemas

  /** The `ValidationError` raised by `DataValidator`, one constructor per message. */
  datatype ValidationError =
    | PasswordTooShort
    | InvalidSpecies(species: string)
    | BelowMinimum(field: string, bound: real)
    | AboveMaximum(field: string, bound: real)
    | MissingFields(fields: set<string>)
    | NotANumber(field: string)
    | LimitTooSmall
    | LimitTooLarge
    | NegativeOffset

  // ================================================================ DataValidator

  const MinPasswordLength: nat := 6

  /** `validate_password`: rejects passwords shorter than six characters. */
  function ValidatePassword(password: string): Outcome<ValidationError> {
    if |password| < MinPasswordLength then Fail(PasswordTooShort) else Pass
  }

  lemma ValidatePasswordRejectsExactlyShort(password: string)
    ensures ValidatePassword(password).Fail? <==> |password| < 6
  {
  }

  /** `validate_species`: the enum value named by the lower-cased input. */
  function ValidateSpecies(species: string): Result<string, ValidationError> {
    match SpeciesFromValue(Lower(species))
    case Some(sp) => Success(sp.Value())
    case None => Failure(InvalidSpecies(species))
  }

  /** A species name is accepted iff it lower-cases to an enum value, and then that
      lower-case value is returned. */
  lemma ValidateSpeciesAccepts(species: string)
    ensures ValidateSpecies(species).Success? <==> Lower(species) in SpeciesValues
    ensures ValidateSpecies(species).Success? ==> ValidateSpecies(species).value == Lower(species)
    ensures ValidateSpecies(species).Failure? ==> ValidateSpecies(species).error == InvalidSpecies(species)
  {
  }

  /** Validating an already validated species name returns it unchanged. */
  lemma ValidateSpeciesIdempotent(species: string)
    requires ValidateSpecies(species).Success?
    ensures ValidateSpecies(ValidateSpecies(species).value) == ValidateSpecies(species)
  {
    LowerIdempotent(species);
  }

  /** `validate_numeric_range`: the lower bound is checked first, then the upper bound;
      an absent bound is not checked. */
  function ValidateNumericRange(value: real, minValue: Option<real>, maxValue: Option<real>, field: string)
    : Outcome<ValidationError>
  {
    if minValue.Some? && value < minValue.value then Fail(BelowMinimum(field, minValue.value))
    else if maxValue.Some? && value > maxValue.value then Fail(AboveMaximum(field, maxValue.value))
    else Pass
  }

  lemma ValidateNumericRangeAccepts(value: real, minValue: Option<real>, maxValue: Option<real>, field: string)
    ensures ValidateNumericRange(value, minValue, maxValue, field).Pass? <==>
      (minValue.None? || minValue.value <= value) && (maxValue.None? || value <= maxValue.value)
  {
  }

  /** Python's `float(v)`: numbers and booleans convert, strings go through the (abstract)
      float parser, every other value is a TypeError (None). */
  function ToFloat(v: JsonValue, parseFloat: string -> Option<real>): Option<real> {
    match v
    case Number(x) => Some(x)
    case Bool(b) => Some(if b then 1.0 else 0.0)
    case Text(s) => parseFloat(s)
    case _ => None
  }

  const FeatureMinimum: real := 0.0
  const FeatureMaximum: real := 20.0

  /** What `validate_data_point` raises: a `ValidationError`, or the AttributeError that
      `species.lower()` raises when the species value is not a string. */
  datatype DataPointError = Invalid(error: ValidationError) | SpeciesNotText

  /** The loop over the numeric fields of `validate_data_point`, in order. A value that does not
      convert is "not a valid number"; a converted value outside [0, 20] fails with the range
      error, which the `except (ValueError, TypeError)` clause does not catch. */
  function CheckFeatures(data: map<string, JsonValue>, fields: seq<string>, parseFloat: string -> Option<real>)
    : Outcome<ValidationError>
    requires forall i :: 0 <= i < |fields| ==> fields[i] in data
  {
    if fields == [] then Pass
    else
      match ToFloat(data[fields[0]], parseFloat)
      case None => Fail(NotANumber(fields[0]))
      case Some(x) =>
        match ValidateNumericRange(x, Some(FeatureMinimum), Some(FeatureMaximum), fields[0])
        case Fail(e) => Fail(e)
        case Pass => CheckFeatures(data, fields[1..], parseFloat)
  }

  predicate HasRequiredFields(data: map<string, JsonValue>) {
    forall f :: f in RequiredColumns ==> f in data
  }

  /** `validate_data_point`: missing fields first, then the features in order, then the species. */
  function ValidateDataPoint(data: map<string, JsonValue>, parseFloat: string -> Option<real>)
    : Outcome<DataPointError>
  {
    if !HasRequiredFields(data) then Fail(Invalid(MissingFields(set f | f in RequiredColumns && f !in data)))
    else
      match CheckFeatures(data, FeatureColumns, parseFloat)
      case Fail(e) => Fail(Invalid(e))
      case Pass =>
        match data[SpeciesColumn]
        case Text(s) =>
          (match ValidateSpecies(s)
           case Success(_) => Pass
           case Failure(e) => Fail(Invalid(e)))
        case _ => Fail(SpeciesNotText)
  }

  predicate FeatureInRange(data: map<string, JsonValue>, field: string, parseFloat: string -> Option<real>) {
    field in data &&
    var x := ToFloat(data[field], parseFloat);
    x.Some? && FeatureMinimum <= x.value <= FeatureMaximum
  }

  lemma {:induction false} CheckFeaturesPasses(data: map<string, JsonValue>, fields: seq<string>, parseFloat: string -> Option<real>)
    requires forall i :: 0 <= i < |fields| ==> fields[i] in data
    ensures CheckFeatures(data, fields, parseFloat).Pass? <==>
      forall i :: 0 <= i < |fields| ==> FeatureInRange(data, fields[i], parseFloat)
  {
    if fields != [] {
      CheckFeaturesPasses(data, fields[1..], parseFloat);
      assert forall i :: 1 <= i < |fields| ==> fields[i] == fields[1..][i - 1];
    }
  }

  /** A data point passes iff all five required fields are present, each of the four features
      converts to a number in [0, 20], and the species is a string naming an enum value in any case. */
  lemma ValidateDataPointAccepts(data: map<string, JsonValue>, parseFloat: string -> Option<real>)
    ensures ValidateDataPoint(data, parseFloat).Pass? <==>
      (forall f :: f in RequiredColumns ==> f in data) &&
      (forall f :: f in FeatureColumns ==> FeatureInRange(data, f, parseFloat)) &&
      data[SpeciesColumn].Text? && Lower(data[SpeciesColumn].s) in SpeciesValues
  {
    if HasRequiredFields(data) {
      CheckFeaturesPasses(data, FeatureColumns, parseFloat);
    }
  }

  const MaxPageLimit: int := 1000

  /** `validate_pagination_params`: the limit is checked before the offset. */
  function ValidatePaginationParams(limit: Option<int>, offset: Option<int>): Outcome<ValidationError> {
    if limit.Some? && limit.value < 1 then Fail(LimitTooSmall)
    else if limit.Some? && limit.value > MaxPageLimit then Fail(LimitTooLarge)
    else if offset.Some? && offset.value < 0 then Fail(NegativeOffset)
    else Pass
  }

  /** Pagination fails iff a given limit is outside [1, 1000] or a given offset is negative;
      absent values always pass. */
  lemma ValidatePaginationParamsRejects(limit: Option<int>, offset: Option<int>)
    ensures ValidatePaginationParams(limit, offset).Fail? <==>
      (limit.Some? && (limit.value < 1 || limit.value > 1000)) || (offset.Some? && offset.value < 0)
    ensures ValidatePaginationParams(None, None) == Pass
  {
  }

  /** Python's `\w` on ASCII: letters, digits and the underscore. */
  predicate IsWordChar(c: char) {
    'a' <= c <= 'z' || 'A' <= c <= 'Z' || '0' <= c <= '9' || c == '_'
  }

  /** The characters `re.sub(r'[^\w\s.-]', '', ...)` keeps. */
  predicate IsFilenameChar(c: char) {
    IsWordChar(c) || IsSpace(c) || c == '.' || c == '-'
  }

  predicate AllFilenameChars(s: string) {
    forall i :: 0 <= i < |s| ==> IsFilenameChar(s[i])
  }

  /** `re.sub(r'[^\w\s.-]', '', s)`: drops every other character, keeping the order of the rest. */
  function KeepFilenameChars(s: string): (r: string)
    ensures AllFilenameChars(r)
  {
    if s == [] then []
    else (if IsFilenameChar(s[0]) then [s[0]] else []) + KeepFilenameChars(s[1..])
  }

  lemma {:induction false} KeepFilenameCharsUnchanged(s: string)
    requires AllFilenameChars(s)
    ensures KeepFilenameChars(s) == s
  {
    if s != [] {
      KeepFilenameCharsUnchanged(s[1..]);
      assert s == [s[0]] + s[1..];
    }
  }

  /** `sanitize_filename`. */
  function SanitizeFilename(filename: string): string {
    var s := Strip(KeepFilenameChars(filename));
    if EndsWith(s, ".csv") then s else s + ".csv"
  }

  lemma StripKeepsChars(s: string)
    requires AllFilenameChars(s)
    ensures AllFilenameChars(Strip(s))
  {
    var l := StripLeft(s);
    assert AllFilenameChars(l);
  }

  /** A sanitized file name ends in ".csv" and holds only word characters, whitespace,
      '.' and '-'; in particular it holds no path separator. */
  lemma SanitizeFilenameShape(filename: string)
    ensures EndsWith(SanitizeFilename(filename), ".csv")
    ensures AllFilenameChars(SanitizeFilename(filename))
    ensures '/' !in SanitizeFilename(filename) && '\\' !in SanitizeFilename(filename)
  {
    StripKeepsChars(KeepFilenameChars(filename));
    var r := SanitizeFilename(filename);
    assert AllFilenameChars(r);
    assert forall i :: 0 <= i < |r| ==> r[i] != '/' && r[i] != '\\';
  }

  /** Sanitizing a sanitized file name changes nothing. */
  lemma SanitizeFilenameIdempotent(filename: string)
    ensures SanitizeFilename(SanitizeFilename(filename)) == SanitizeFilename(filename)
  {
    var r := SanitizeFilename(filename);
    SanitizeFilenameShape(filename);
    KeepFilenameCharsUnchanged(r);
    SanitizedEdges(filename);
    StripUnchanged(r);
  }

  /** A sanitized name neither starts nor ends with whitespace. */
  lemma SanitizedEdges(filename: string)
    ensures var r := SanitizeFilename(filename);
      r != [] && !IsSpace(r[0]) && !IsSpace(r[|r| - 1])
  {
    var s := Strip(KeepFilenameChars(filename));
    var r := SanitizeFilename(filename);
    StripBounded(KeepFilenameChars(filename));
    if EndsWith(s, ".csv") {
      assert r == s && s != [];
    } else {
      assert r == s + ".csv";
      assert r[|r| - 1] == 'v' && !IsSpace('v');
      if s == [] {
        assert r[0] == '.' && !IsSpace('.');
      } else {
        assert r[0] == s[0];
      }
    }
  }

  // ================================================================ AccessValidator

  /** `validate_species_access`: the exact (case-sensitive) wildcard "all" grants everything;
      otherwise access and request must agree ignoring case. */
  function ValidateSpeciesAccess(userAccess: string, requestedSpecies: string): bool {
    if userAccess == "all" then true else Lower(userAccess) == Lower(requestedSpecies)
  }

  /** `validate_admin_access`: only the exact string "all" is administrative. */
  function ValidateAdminAccess(userAccess: string): bool {
    userAccess == "all"
  }

  /** `get_accessible_species`. */
  function GetAccessibleSpecies(userAccess: string): seq<string> {
    if userAccess == "all" then SpeciesValues else [userAccess]
  }

  /** The wildcard reaches every species, whatever its spelling. */
  lemma WildcardGrantsEverySpecies(requested: string)
    ensures ValidateSpeciesAccess("all", requested)
  {
  }

  /** The wildcard test is case-sensitive: "ALL" is neither administrative nor a wildcard. */
  lemma UppercaseAllIsNoWildcard()
    ensures !ValidateAdminAccess("ALL")
    ensures !ValidateSpeciesAccess("ALL", "setosa")
    ensures ValidateSpeciesAccess("ALL", "all")
  {
    assert Lower("ALL") == "all";
    assert Lower("setosa") == "setosa";
  }

  /** Outside the wildcard, access is granted iff the two names agree ignoring case; so the
      check is reflexive, symmetric, and insensitive to the case of either argument. */
  lemma SpeciesAccessIsCaseInsensitiveEquality(a: string, s: string, a': string, s': string)
    requires a != "all" && a' != "all"
    ensures ValidateSpeciesAccess(a, s) <==> Lower(a) == Lower(s)
    ensures ValidateSpeciesAccess(a, a)
    ensures s != "all" ==> (ValidateSpeciesAccess(a, s) <==> ValidateSpeciesAccess(s, a))
    ensures Lower(a) == Lower(a') && Lower(s) == Lower(s') ==>
      (ValidateSpeciesAccess(a, s) <==> ValidateSpeciesAccess(a', s'))
  {
  }

  /** An administrator may read every species. */
  lemma AdminAccessImpliesSpeciesAccess(a: string, s: string)
    ensures ValidateAdminAccess(a) <==> a == "all"
    ensures ValidateAdminAccess(a) ==> ValidateSpeciesAccess(a, s)
  {
  }

  /** The wildcard lists the three species in enum order; any other access level lists only
      itself, unchanged; every listed species passes the species-access check. */
  lemma AccessibleSpeciesAreAccessible(a: string)
    ensures a == "all" ==> GetAccessibleSpecies(a) == ["setosa", "virginica", "versicolor"]
    ensures a != "all" ==> GetAccessibleSpecies(a) == [a]
    ensures forall s :: s in GetAccessibleSpecies(a) ==> ValidateSpeciesAccess(a, s)
  {
  }
}
