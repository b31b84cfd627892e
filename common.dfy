/** Values shared by the model of both facelock programs: bytes, Python's
    exceptions as a result type, and the JSON values exchanged with the
    Face service. */
module Common {

  newtype byte = x: int | 0 <= x < 256

  /** A Python `bytes` object. */
  type Bytes = seq<byte>

  datatype Option<+T> = None | Some(value: T)

  /** The Python exceptions that the modelled code raises or lets escape. */
  datatype PyError =
    | ValueError(message: string)
    | KeyError(key: string)
    | IndexError
    | TypeError
    | ZeroDivisionError
    | ConnectionError
    | HTTPError(status: int)
    | PlatformError(message: string)

  /** A value, or the exception raised instead of returning one. */
  datatype Result<+T> = Ok(value: T) | Err(error: PyError)

  /** A decoded JSON document, as `json.loads` returns it. */
  datatype Json =
    | JNull
    | JBool(b: bool)
    | JNum(n: real)
    | JStr(s: string)
    | JList(items: seq<Json>)
    | JObj(fields: map<string, Json>)

  /** The value Python's arithmetic and comparisons see in a JSON value: a
      number as it is, and a boolean as 1 or 0 (`bool` is a subclass of
      `int`); None for anything else, where they raise TypeError. */
  function AsNumber(j: Json): (r: Option<real>)
    ensures r.Some? <==> j.JNum? || j.JBool?
  {
    match j
    case JNum(n) => Some(n)
    case JBool(b) => Some(if b then 1.0 else 0.0)
    case _ => None
  }

  /** A Python dict with string keys, such as one face of a detect response. */
  type Dict = map<string, Json>
}
