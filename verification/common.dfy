/** Shared vocabulary of the markup tool model: optional values, results,
    the two media kinds and the JSON values a request body may carry. */
module Common {

  /** A value that may be absent (Python's None, SQL's NULL, JavaScript's null). */
  datatype Option<+T> = None | Some(value: T) {
    function GetOr(default: T): T {
      match this
      case Some(v) => v
      case None => default
    }
  }

  /** Either a value or the error that prevented it. */
  datatype Result<+T, +E> = Ok(value: T) | Err(error: E)

  /** The two media kinds a record can have (the `type` column). */
  datatype MediaType = Image | Video

  function MediaTypeName(t: MediaType): string {
    match t
    case Image => "image"
    case Video => "video"
  }

  /** A JSON value as a decoder (the web framework's, or the database
      driver's reading of a `jsonb` column) returns it. Python's decoder
      makes an int of a number literal without fraction or exponent
      (`JInt`) and a float of every other one (`JNumber`). Arrays and
      objects are only ever tested for emptiness or kind, so only their
      size is kept. */
  datatype JsonValue =
    | JNull
    | JBool(b: bool)
    | JInt(i: int)
    | JNumber(n: real)
    | JString(s: string)
    | JArray(length: nat)
    | JObject(size: nat)

  /** Python truthiness of a decoded JSON value. */
  predicate Truthy(v: JsonValue) {
    match v
    case JNull => false
    case JBool(b) => b
    case JInt(i) => i != 0
    case JNumber(n) => n != 0.0
    case JString(s) => s != ""
    case JArray(n) => n > 0
    case JObject(n) => n > 0
  }
}
