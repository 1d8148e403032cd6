# iris-data-demo core, modelled in Dafny

This project models the server-side core of *iris-data-demo*. The service exposes a small Iris
flower dataset over HTTP. Users log in, receive JWT access and refresh tokens, and may read only the
species their access level grants; an administrator ("all") sees every species. The model covers:

- **Input validation** (`backend/app/core/validators.py`, module `Validators`): password length,
  species names, numeric ranges, data points, pagination, file-name sanitising and the
  access-level checks.
- **Tokens** (`backend/app/core/security.py`, module `Security`): the claims placed in access and
  refresh tokens, their lifetimes, decoding, and verification by kind. The JWT library is an
  abstract codec whose decode inverts its encode. The exact-match `check_user_access` is modelled
  too.
- **The dataset loader** (`backend/app/data/loader.py`, module `Loader`): the class
  `IrisDataLoader` with its cached frame and load timestamp, CSV validation and coercion, the
  built-in 20-row sample, the species filter with its case-insensitive fallback, the list of
  species, the per-species summary, and the process-wide `get_data_loader` registry.
- **The processor** (`backend/app/data/processor.py`, module `Processor`): response building,
  statistics, value counts, z-score outlier filtering, min-max and z-score normalisation, and
  per-species aggregation.
- **The authentication routes** (`backend/app/api/routes/auth.py`, module `AuthRoutes`): the
  in-memory user store with its id counter, register, login, refresh and "me".
- **Dependencies** (`backend/app/dependencies.py`, module `Dependencies`): the API-key and
  admin-key checks.
- **Helpers** (`backend/app/utils/helpers.py`, module `Helpers`): e-mail masking and recursive
  redaction of sensitive dictionary keys.

Shared modules hold the rest:

- `Wrappers`: Option and Result.
- `Text`: ASCII case folding, whitespace stripping, split and join, integer printing and parsing.
- `Seqs`: distinctness, first-appearance de-duplication, counting.
- `Stats`: sum, mean, min, max; the estimators pandas computes and the model does not define are
  left abstract.
- `Schemas`: the species and access enums, the column names, HTTP errors.
- `Frames`: a pandas frame as a column set and a sequence of rows.

A cell is a number, a string or `Undefined`. `Undefined` stands for NaN; it never equals anything,
and statistics skip it, as pandas does. Every statistic that pandas computes with a loop is a
Dafny `method` with a `while` or `for` loop. Each method is proved against a specification
function, and the properties are proved about that function. The loader's and the user store's
mutable state are `class` fields.

Some descriptions of this service reject a token from its expiry second on (`now >= exp`).
python-jose, which the code calls, rejects a token only once that second has passed (`exp < now`).
The model follows the library; `Security.Expired` states the rule.

## Model

| member | source | states |
|---|---|---|
| Schemas.SpeciesFromValue | backend/app/models/schemas.py:11-15 | the species enum accepts exactly the three lower-case values and returns the member with that value |
| Validators.ValidatePasswordRejectsExactlyShort | backend/app/core/validators.py:48-49 | a password is rejected exactly when it has fewer than 6 characters |
| Validators.ValidateSpeciesAccepts | backend/app/core/validators.py:73-80 | a species is accepted exactly when its lower-cased form is an enum value, which is then returned; the rejection names the input |
| Validators.ValidateSpeciesIdempotent | backend/app/core/validators.py:73-75 | validating an accepted species' normalised name returns it unchanged |
| Validators.ValidateNumericRangeAccepts | backend/app/core/validators.py:101-105 | a value is accepted exactly when it is not below a given minimum and not above a given maximum |
| Validators.CheckFeaturesPasses | backend/app/core/validators.py:126-132 | the numeric check passes exactly when every feature converts to a float within [0, 20] |
| Validators.ValidateDataPointAccepts | backend/app/core/validators.py:118-135 | a data point is accepted exactly when all five fields are present, the features are numbers in [0, 20] and the species is valid |
| Validators.ValidatePaginationParamsRejects | backend/app/core/validators.py:149-157 | pagination is rejected exactly when a given limit is outside [1, 1000] or a given offset is negative |
| Validators.KeepFilenameChars | backend/app/core/validators.py:171 | the cleaned name holds only word characters, whitespace, dots and hyphens |
| Validators.KeepFilenameCharsUnchanged | backend/app/core/validators.py:171 | a name made only of allowed characters passes the cleaning unchanged |
| Validators.SanitizeFilenameShape | backend/app/core/validators.py:170-178 | a sanitised name ends in ".csv", holds only word characters, whitespace, dots and hyphens, and so no path separator |
| Validators.SanitizeFilenameIdempotent | backend/app/core/validators.py:170-178 | sanitising a sanitised name changes nothing |
| Validators.WildcardGrantsEverySpecies | backend/app/core/validators.py:196-197 | the access level "all" is granted every species |
| Validators.UppercaseAllIsNoWildcard | backend/app/core/validators.py:196-199 | "ALL" is not the wildcard: it grants only a species spelled "all" in any case |
| Validators.SpeciesAccessIsCaseInsensitiveEquality | backend/app/core/validators.py:196-199 | for a level other than "all", access is granted exactly when level and species are equal ignoring case |
| Validators.AdminAccessImpliesSpeciesAccess | backend/app/core/validators.py:212 | admin access holds exactly for "all", and an admin may read every species |
| Validators.AccessibleSpeciesAreAccessible | backend/app/core/validators.py:225-228 | "all" lists the three species in enum order and any other level lists only itself; every species listed passes the species-access check |
| Security.CreateTokensClaims | backend/app/core/security.py:97-110 | both tokens carry the same subject, e-mail and access level; the access token has type "access" and expires after the access lifetime, the refresh token has type "refresh" and expires after the refresh lifetime; the type is bearer and expires_in is the access lifetime in seconds |
| Security.DecodeFailuresAreUniform | backend/app/core/security.py:54-65 | decoding fails exactly when the codec rejects the token or it has expired, always with the same 401 "Could not validate credentials" |
| Security.VerifiedTokensHaveKindAndIdentity | backend/app/core/security.py:67-95 | a verified token decoded, carries the requested type, and has a non-empty subject, e-mail and access level |
| Security.TokenKindsAreSeparate | backend/app/core/security.py:72-77 | an access token never verifies as a refresh token and a refresh token never verifies as an access token |
| Security.CreateThenVerifyRoundTrip | backend/app/core/security.py:97-110 | until its expiry each issued token verifies for its own kind and returns the user's id, e-mail and access level |
| Security.ExpiredAccessTokenRejected | backend/app/core/security.py:38-44 | after the access lifetime has passed, the issued access token fails verification with the credentials error |
| Security.ThirtyMinuteAccessWindow | backend/app/core/security.py:27 | illustration of the two lemmas above: with a 30-minute setting an issued access token is accepted 5 minutes later and rejected 31 minutes later |
| Security.CheckUserAccessIsExactMatch | backend/app/core/security.py:143-151 | check_user_access holds exactly for "all" or an exact, case-sensitive match, and implies the validators' check |
| Security.AccessChecksDifferOnCase | backend/app/core/security.py:143-151 | for every level and species, the two access checks disagree exactly when the level is not "all", differs from the species and equals it ignoring case |
| Security.AccessChecksDifferOnSetosa | backend/app/core/security.py:143-151 | illustration of the lemma above: the level "Setosa" may read "setosa" under the validators' check and not under check_user_access |
| Text.IntToStringRoundTrip | backend/app/core/security.py:92 | parsing the printed subject gives back the user id |
| Text.ParseIntIgnoresSurroundingSpace | backend/app/core/security.py:92 | for all whitespace w1, w2 and every text s that neither starts nor ends with whitespace, int(w1 + s + w2) reads as int(s) |
| Text.ParseIntStripsWhitespace | backend/app/core/security.py:92 | illustration of the lemma above: " 7\n" reads as 7 |
| Text.UnderscoreGroupingKeepsValue | backend/app/core/security.py:92 | two digit groups joined by one underscore read as the same integer as the digits without it |
| Text.DoubledUnderscoreRejected | backend/app/core/security.py:92 | digits with two underscores in a row are refused |
| Dependencies.ApiKeyNotRequired | backend/app/dependencies.py:29-30 | when keys are not required every request passes with no key |
| Dependencies.ApiKeyRequired | backend/app/dependencies.py:32-48 | when keys are required a missing or empty key gives 401 "API key required", a different key 401 "Invalid API key", and the configured key is returned |
| Dependencies.AdminKeyDecision | backend/app/dependencies.py:66-82 | a missing or empty admin key gives 401 and any other wrong key 403; the key passes exactly when it equals the configured key, or "admin-secret-key" when none is configured |
| Helpers.MaskEmailMalformed | backend/app/utils/helpers.py:42-44 | an address without exactly one "@" masks to "***" |
| Helpers.MaskEmailWellFormed | backend/app/utils/helpers.py:46-52 | with one "@" the domain is kept; a user part of at most 3 characters becomes stars, a longer one keeps its first two and last characters around stars, same length |
| Helpers.SplitOfSingleSeparator | backend/app/utils/helpers.py:42-46 | splitting at the only "@" gives the parts before and after it |
| Helpers.SanitizeDict | backend/app/utils/helpers.py:64-78 | the loop builds the recursively redacted dictionary |
| Helpers.IsSensitiveCheck | backend/app/utils/helpers.py:71 | a key is sensitive exactly when its lower-cased form contains one of the sensitive words |
| Helpers.SanitizedShape | backend/app/utils/helpers.py:69-76 | the result has the same keys; sensitive keys become "***REDACTED***", other values that are not dictionaries are kept, and dictionaries under other keys are sanitized in turn |
| Helpers.DefaultKeysRedactByLowercaseSubstring | backend/app/utils/helpers.py:66-71 | with the default list, every key whose lower-cased form contains "password" is redacted, whatever its case |
| Helpers.SanitizedIdempotent | backend/app/utils/helpers.py:73-76 | sanitising twice with the same keys equals sanitising once |
| Seqs.UniqueInFirstAppearanceOrder | backend/app/data/loader.py:111 | the de-duplicated labels keep the order of their first appearance |
| Stats.MeanBetweenMinAndMax | backend/app/data/processor.py:197-201 | on non-empty input the mean lies between the minimum and the maximum |
| Frames.WithLabelSpec | backend/app/data/loader.py:95 | the rows with a label form a subsequence holding exactly the rows so labelled, as many as the label's occurrences; NaN matches nothing |
| Frames.WithLabelIgnoringCaseSpec | backend/app/data/loader.py:99 | the case-insensitive filter keeps, in order, exactly the rows whose text label lower-cases to the name |
| Loader.SampleData | backend/app/data/loader.py:154-182 | the sample has the five columns and 20 rows: 10 setosa then 10 virginica |
| Loader.SampleDataIsValid | backend/app/data/loader.py:136-182 | the sample passes validation unchanged |
| Loader.CoerceColumn | backend/app/data/loader.py:147-150 | converting a column leaves it with no text, keeps its numbers and leaves the other columns alone |
| Loader.CoerceFeaturesKeeps | backend/app/data/loader.py:145-152 | conversion keeps columns, rows, labels and every number |
| Loader.CoerceFeaturesSucceeds | backend/app/data/loader.py:145-152 | conversion succeeds exactly when every feature column is convertible, and then no feature holds text |
| Loader.CoerceFeaturesFailsAtFirst | backend/app/data/loader.py:146-152 | a failed conversion names the first column that cannot be converted |
| Loader.ValidateSpec | backend/app/data/loader.py:136-152 | validation succeeds exactly when all five columns exist and the features are convertible; missing columns are reported before conversion |
| Loader.LoadUsesCache | backend/app/data/loader.py:50-52 | a cached frame is returned untouched unless a reload is forced |
| Loader.LoadOutcomes | backend/app/data/loader.py:54-70 | a successful load caches what it returns and stamps the time; a failure keeps the timestamp and raises DataLoadError; a missing file yields the sample |
| Loader.LoadFromCsv | backend/app/data/loader.py:55-60 | a read file replaces the cache even when validation fails; the load returns exactly when validation passes |
| Loader.SpeciesRowsRefusesUnknownNames | backend/app/data/loader.py:89-92 | a name that is not a species in any case is refused with "Invalid species: " and the name |
| Loader.SpeciesRowsSelects | backend/app/data/loader.py:94-104 | the rows returned are a non-empty subsequence of the frame, all with the species either exactly or ignoring case |
| Loader.SpeciesRowsSucceedsIffMatch | backend/app/data/loader.py:94-104 | the query succeeds exactly when some row's label matches the species exactly or ignoring case |
| Loader.SpeciesRowsPrefersExactMatch | backend/app/data/loader.py:95-99 | when the normalised value occurs, exactly the rows with that value are returned |
| Loader.MixedCaseNameIsServed | backend/app/data/loader.py:89-104 | a name that is a species only ignoring case, such as "Setosa", is served with at least one row, yet is not itself one of the enum values |
| Loader.SpeciesRowsFallsBackToCaseInsensitive | backend/app/data/loader.py:95-104 | when the normalised value does not occur but some label matches ignoring case, exactly the rows matching ignoring case are returned |
| Loader.AllSpeciesSpec | backend/app/data/loader.py:106-111 | every label is listed exactly once, in order of first appearance |
| Loader.GroupStatisticsSpec | backend/app/data/loader.py:121-131 | a group's statistics cover the four features, with min <= mean <= max when a column has numbers |
| Loader.SummaryOfSpec | backend/app/data/loader.py:118-132 | the summary has one entry per listed label, counting that label's rows |
| Loader.SummarySpec | backend/app/data/loader.py:113-134 | the summary's keys are the labels and each count is the label's occurrences; without NaN labels the counts add up to the row count |
| Loader.IrisDataLoader.constructor | backend/app/data/loader.py:21-25 | a new loader remembers its path and holds no data and no timestamp |
| Loader.IrisDataLoader.ValidateData | backend/app/data/loader.py:136-152 | the per-column loop leaves the frame validation describes, even on failure, and does not touch the timestamp |
| Loader.IrisDataLoader.LoadData | backend/app/data/loader.py:37-70 | the new data, timestamp and outcome are those of the load specification |
| Loader.IrisDataLoader.GetSpeciesData | backend/app/data/loader.py:72-104 | loads if nothing is cached, then returns the species rows of the loaded frame, or the load failure |
| Loader.IrisDataLoader.GetAllSpecies | backend/app/data/loader.py:106-111 | loads if needed, then returns the distinct labels |
| Loader.SummarizeFrame | backend/app/data/loader.py:115-134 | the per-label loop returns exactly the summary specification's result: the first failing group's error, or one entry per distinct label |
| Loader.IrisDataLoader.GetSummaryStatistics | backend/app/data/loader.py:113-134 | loads if needed, then returns the summary of the loaded frame, or the load failure |
| Loader.IrisDataLoader.Clear | backend/app/api/routes/admin.py:111-113 | clearing the cache drops the data and the timestamp |
| Loader.LoaderRegistry.GetDataLoader | backend/app/data/loader.py:189-197 | the existing loader is reused unless there is none or a path is given; a new one uses the given path, "data/iris.csv" when the path is empty |
| Processor.SpeciesResponseOf | backend/app/data/processor.py:19-61 | one point per row, in order, with that row's features and the given label; the response names the requested species; min and max maps hold exactly the features, bound every number and are attained |
| Processor.ProcessSpeciesData | backend/app/data/processor.py:19-61 | the corrected response: as above with every point labelled by the lower-cased name, and for every name the loader accepts the points pass the species check of the response model |
| Processor.ProcessSpeciesDataAsWritten | backend/app/data/processor.py:31-61 | the response as the code builds it, with the requested name in every point, is refused exactly when there is a row and the name is not exactly "setosa", "virginica" or "versicolor" |
| Processor.DataPoints | backend/app/data/processor.py:31-39 | the row loop yields one point per row, in order, each with that row's four features and the given species |
| Processor.CalculateStatistics | backend/app/data/processor.py:64-85 | the count is the row count; there is a mean and a standard deviation for exactly the four features, each mean being the mean of that column and lying between its min and max |
| Processor.ValueCounts | backend/app/data/processor.py:100 | the counted labels are exactly the labels that are not NaN |
| Processor.ValueCountsSumToTotal | backend/app/data/processor.py:99-100 | over the distinct labels, the value counts add up to the number of labels when none is NaN |
| Processor.SpeciesStatistics | backend/app/data/processor.py:103-107 | the loop yields one entry per distinct label, in order of first appearance, each with that label, its row count, and the mean and sample std of exactly the four features over that label's rows |
| Processor.ProcessSummaryData | backend/app/data/processor.py:88-114 | the total is the row count; species counts are the occurrences of each non-NaN label; one statistics entry per distinct label, in order, giving count, means and stds of that label's rows; the two fields the code omits are the caller's, and the response passes the required-field check |
| Processor.ProcessSummaryDataAsWritten | backend/app/data/processor.py:109-114 | the response as the code builds it fails the required-field check on every input, missing accessible_species and user_access_level |
| Processor.SummaryArgumentsAsWrittenMiss | backend/app/models/schemas.py:112-119 | the call leaves out exactly accessible_species and user_access_level of the required fields |
| Processor.KeepRowsStep | backend/app/data/processor.py:131-140 | filtering one more column filters the previous result by that column |
| Processor.FilterOutliers | backend/app/data/processor.py:117-146 | the loop keeps the frame's columns and the rows of the filter specification |
| Processor.KeepRowsSpec | backend/app/data/processor.py:129-146 | the kept rows are a subsequence of the input, holding exactly the rows that lie within n standard deviations of the full column's mean for every listed column that exists |
| Processor.FilterIgnoresAbsentColumns | backend/app/data/processor.py:131-132 | columns the frame lacks filter nothing |
| Processor.NormalizeData | backend/app/data/processor.py:149-176 | the loop returns the frame the normalisation specification describes |
| Processor.NormalizeSpec | backend/app/data/processor.py:161-176 | for each listed column that exists, "<col>_normalized" is added or overwritten with that column's normalised cells; other columns and the row count are kept |
| Processor.NormalizeUnknownMethod | backend/app/data/processor.py:163-176 | a method other than "minmax" or "zscore" returns the frame unchanged |
| Processor.MinMaxRange | backend/app/data/processor.py:165-169 | min-max scaling maps every number of a non-constant column into [0, 1], the minimum to 0 and the maximum to 1 |
| Processor.ZScoreValue | backend/app/data/processor.py:170-174 | with at least two numbers and a positive standard deviation, a z-score times the standard deviation is the distance from the mean |
| Processor.AggregateBySpecies | backend/app/data/processor.py:179-208 | one entry per label, each with the seven statistics for exactly the four features, computed on that label's rows, with min <= mean <= max |
| AuthRoutes.FirstWithIdSpec | backend/app/api/routes/auth.py:129-133 | the search finds a user exactly when one has the id, and finds the first such in insertion order |
| AuthRoutes.UserStore.constructor | backend/app/api/routes/auth.py:26-57 | the store starts with the three demo users, ids 1 to 3, all active, and the counter at 4 |
| AuthRoutes.UserStore.Register | backend/app/api/routes/auth.py:60-86 | a taken e-mail gives 409 and changes nothing; otherwise the user gets the next id, the hashed password, the requested level or "setosa", and is active; the counter advances and ids stay unique |
| AuthRoutes.UserStore.Login | backend/app/api/routes/auth.py:89-120 | an unknown e-mail or a wrong password gives the same 401; a right password on an inactive account gives 403; otherwise the user's tokens are issued |
| AuthRoutes.UserStore.FindUserById | backend/app/api/routes/auth.py:129-133 | the loop finds a user exactly when one has the id, and returns that stored user |
| AuthRoutes.UserStore.RefreshToken | backend/app/api/routes/auth.py:123-162 | a token the verifier rejects passes on the verifier's own 401 ("Could not validate credentials", "Invalid token type..." or "Invalid token payload"); a subject that is not an integer gives 401 "Invalid refresh token"; an unknown id gives 404, an inactive user 403, otherwise fresh tokens for the stored user |
| AuthRoutes.UserStore.GetCurrentUserInfo | backend/app/api/routes/auth.py:165-182 | the stored user with the token's id is returned, or 404 when there is none |
| AuthRoutes.RefreshOfOwnTokenSucceeds | backend/app/api/routes/auth.py:123-153 | a refresh token issued to an active stored user refreshes, before it expires, into tokens for that user |

## Left out

- Reading the CSV file is not modelled. Its outcome is the `Loader.Source` parameter: missing, unreadable with a reason, or a parsed frame. `pd.to_numeric` on text is the `parse` parameter.
- The clock is the `now` parameter, in whole seconds. `created_at` timestamps are not modelled.
- Logging is not modelled.
- Password hashing (bcrypt through passlib) is not modelled. Hashes and the `verify` relation are parameters.
- JWT signing is an abstract codec that inverts its encoder. Algorithms, keys and signature checking are not modelled.
- The `jwt_*` settings are parameters (`Security.SecurityConfig`). `backend/app/config.py` does not declare them.
- `get_current_active_user` is not part of this model. `auth.py` imports it, but `backend/app/dependencies.py` does not define it, so `GetCurrentUserInfo` takes the authenticated identity as a parameter.
- `logout` (auth.py:185-191) only logs and returns a constant message, so it is not modelled.
- Request and response validation by Pydantic is mostly not modelled. The e-mail syntax and 6-character password on `UserCreate` are left out, and so are the non-negative features and non-empty data on responses. Two checks are modelled, both under "## Findings". One is the required-field check on `DataSummaryResponse`. The other is the `SpeciesEnum` type of `IrisDataPoint.species` (schemas.py:81): the points of a species response carry the name as requested, so a name that is not all lower case, such as "Setosa", is refused, and the species route answers 500 (data.py:61-63).
- `DataValidator.validate_email` (a call into email_validator) is not modelled.
- `format_file_size`, `safe_json_dumps`, id and hash generation and timestamp formatting in `backend/app/utils/helpers.py` are not modelled.
- How the routes are wired is not modelled. `main.py` does not mount the authentication router, and the data routes do not call the access checks. Each check is modelled as a function of its own.
- Text handling is ASCII only. `Text.Lower`, whitespace and `\w` follow ASCII, where Python uses Unicode.
- Floating point is not modelled. Numbers are reals with exact arithmetic, and NaN and infinities are the `Undefined` cell.
- Undefined statistics are not modelled. The standard deviation, median and quantiles are abstract estimators. The mean, minimum and maximum of an empty column are 0.0 in the model, where pandas gives NaN; no stated property depends on that value.
- Row order and cell contents are modelled, but the pandas index and column order are not. A frame's columns are a set.
- Copies and aliasing of frames are not modelled. Frames are values.
- `Loader.SpeciesRows`: on a species column holding no text, pandas' `.str` accessor raises; the model treats such labels as not matching.
- `Processor.ProcessSpeciesData`: requires the four feature columns and no text in them. Text can reach it: a failed validation leaves the half-converted frame cached (loader.py:57-58, 150), and `get_species_data` then serves it. On such a frame the source does not always fail. When every cell of a text column is numeric text, it answers with `float()` of each cell and with a minimum and maximum chosen by string order, not numeric order. The model does not cover that answer, nor the KeyError, ValueError or TypeError raised on other frames.
- `Processor.CalculateStatistics`: requires the four feature columns and no text in them, for the same reason.
- `Processor.ProcessSummaryData`: requires the species column, the four feature columns and no text in them, for the same reason.
- `Processor.AggregateBySpecies`: requires the species column, the four feature columns and no text in them, for the same reason.
- `Processor.FilterOutliers`: requires no text in the listed columns that exist, for the same reason.
- `Processor.NormalizeData`: requires no text in the listed columns that exist, for the same reason.
- Concurrent requests on the shared loader and user store are not modelled.
- `Helpers.SanitizeDict`: the result is a map, so the key order of the dictionary `sanitize_dict` builds (the input's insertion order) is not modelled.
- `Text.ParseInt`: Python's `int()` also accepts non-ASCII digits and whitespace; the model accepts ASCII only.

## Findings

| source | as written | input that shows it | evidently intended | confidence | as-written member | corrected member |
|---|---|---|---|---|---|---|
| backend/app/data/processor.py:38, 61 | every point's `species` is the name as requested, but `IrisDataPoint.species` is a `SpeciesEnum` (schemas.py:81); the loader serves "Setosa" by its case-insensitive lookup (loader.py:90-99), then building `IrisDataResponse` raises and the route answers 500 (data.py:61-63) | "Setosa" on any frame holding setosa rows, e.g. the built-in sample | the points carry the enum value the rows were selected by | high; not executed | Processor.ProcessSpeciesDataAsWritten | Processor.ProcessSpeciesData |
| backend/app/data/processor.py:109-114 | `DataSummaryResponse` is built without `accessible_species` and `user_access_level`, both required (schemas.py:115, 119; Pydantic 2 treats an `Optional` without a default as required), so construction raises a validation error and `get_data_summary` (data.py:84-97) answers 500 | any frame, e.g. the built-in sample | the summary carries the two fields and the statistics | high; not executed | Processor.ProcessSummaryDataAsWritten | Processor.ProcessSummaryData |
