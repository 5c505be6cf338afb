/**
  The Foundation values the shortener works with, reduced to what it inspects,
  and the two Foundation services whose behaviour is not modelled: decoding bytes
  as JSON (`NSJSONSerialization.JSONObjectWithData`) and deciding whether a string
  is a URL (`NSURL(string:)`). Both are fields of a `Collaborators` record, so each
  operation that needs them is proved for every possible behaviour of them.
 */
module Foundation {
  import opened Wrappers

  newtype byte = x: int | 0 <= x < 256

  /** An `NSURL`, known by its absolute string. */
  datatype URL = URL(absoluteString: string)

  /** An `NSError` as delivered by the transport. */
  datatype NSError = NSError(domain: string, code: int)

  /** An `NSURLResponse`: either an HTTP response with its status code, or some other kind. */
  datatype URLResponse =
    | HTTPURLResponse(statusCode: int, headerFields: map<string, string>)
    | OtherURLResponse

  /** A decoded JSON value, as `NSJSONSerialization` hands it back (objects become dictionaries). */
  datatype Json =
    | JNull
    | JBool(b: bool)
    | JNumber(n: int)
    | JString(s: string)
    | JArray(items: seq<Json>)
    | JObject(fields: map<string, Json>)

  datatype Collaborators = Collaborators(
    jsonObjectWithData: seq<byte> -> Option<Json>,
    isValidURLString: string -> bool)

  /** `NSURL(string: s)`: a URL exactly when Foundation accepts the string. */
  function URLWithString(env: Collaborators, s: string): (r: Option<URL>)
    ensures r.Some? <==> env.isValidURLString(s)
    ensures r.Some? ==> r.value.absoluteString == s
  {
    if env.isValidURLString(s) then Some(URL(s)) else None
  }
}
