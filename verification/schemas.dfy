/** The enumerations and records the core shares: the species and access-level enums of
    backend/app/models/schemas.py, the feature column names, FastAPI's HTTPException and a
    JSON-like value for request bodies and dictionaries. */
module Schemas {
  import opened Wrappers

  /** `SpeciesEnum`, in declaration order setosa, virginica, versicolor. */
  datatype Species = Setosa | Virginica | Versicolor {
    function Value(): string {
      match this
      case Setosa => "setosa"
      case Virginica => "virginica"
      case Versicolor => "versicolor"
    }
  }

  /** `[s.value for s in SpeciesEnum]`. */
  const SpeciesValues: seq<string> := ["setosa", "virginica", "versicolor"]

  /** `SpeciesEnum(v)`: the member whose value is exactly v, or a ValueError (None). */
  function SpeciesFromValue(v: string): (r: Option<Species>)
    ensures r.Some? <==> v in SpeciesValues
    ensures r.Some? ==> r.value.Value() == v
  {
    if v == "setosa" then Some(Setosa)
    else if v == "virginica" then Some(Virginica)
    else if v == "versicolor" then Some(Versicolor)
    else None
  }

  /** `UserAccessEnum`: one species, or the administrative wildcard "all". */
  datatype UserAccess = SpeciesAccess(species: Species) | AllAccess {
    function Value(): string {
      match this
      case SpeciesAccess(s) => s.Value()
      case AllAccess => "all"
    }
  }

  /** The four measurement columns, in the order the source iterates them. */
  const FeatureColumns: seq<string> := ["sepal_length", "sepal_width", "petal_length", "petal_width"]

  const SpeciesColumn: string := "species"

  /** The five columns every dataset and data point must carry. */
  const RequiredColumns: seq<string> := FeatureColumns + [SpeciesColumn]

  /** FastAPI's `HTTPException(status_code, detail)`; response headers are not modelled. */
  datatype HttpError = HttpError(status: int, detail: string)

  const Unauthorized := 401
  const Forbidden := 403
  const NotFound := 404
  const Conflict := 409

  /** A decoded JSON value, as found in request bodies and plain dictionaries. */
  datatype JsonValue =
    | Null
    | Bool(b: bool)
    | Number(x: real)
    | Text(s: string)
    | Array(items: seq<JsonValue>)
    | Object(fields: map<string, JsonValue>)
}
