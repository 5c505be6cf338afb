/**
  `URLShortenerRequest`: a request to shorten one URL with a given API key. It builds
  the endpoint and the outgoing HTTP request, hands the request to a transport it does
  not control, classifies what comes back into a short URL or one of four errors, and
  offers a blocking form that turns that outcome into a thrown error or a returned URL.
 */
module URLShortener {
  import opened Wrappers
  import opened Foundation
  import PercentEncoding
  import JsonText

  /** `URLShortenerError`: the four ways a request can fail. */
  datatype URLShortenerError =
    | UnexpectedError(description: string)
    | HTTPError(response: URLResponse)
    | NetworkError(error: NSError)
    | ResponseParseError

  /** The two values handed to the completion handler, `(NSURL?, URLShortenerError?)`. */
  type Completion = (Option<URL>, Option<URLShortenerError>)

  /** The instance: its API key and the long URL; both are constants. */
  datatype Request = Request(apiKey: string, url: URL)

  const API_ENDPOINT: string := "https://www.googleapis.com/urlshortener/v1/url?key="
  const NO_RESPONSE: string := "No response from server"
  const NO_DATA: string := "Server returned no error, but no response data either"

  /**
    The text of `targetAPIURL`: the fixed endpoint, then the escaped key. Copied key
    characters take one place and encoded UTF-8 bytes three each; nothing after the
    endpoint needs encoding, and a key without `%` can be read back from it.
   */
  function TargetAPIURLString(apiKey: string): (s: string)
    ensures |s| == |API_ENDPOINT| + PercentEncoding.KeptCount(apiKey) + 3 * PercentEncoding.EncodedByteCount(apiKey)
    ensures s[..|API_ENDPOINT|] == API_ENDPOINT
    ensures s[|API_ENDPOINT|..] == PercentEncoding.Escape(apiKey)
    ensures PercentEncoding.NothingToEncode(s[|API_ENDPOINT|..])
    ensures '%' !in apiKey ==> PercentEncoding.Unescape(s[|API_ENDPOINT|..]) == apiKey
  {
    var escaped := PercentEncoding.Escape(apiKey);
    EscapedKeyFacts(apiKey);
    assert (API_ENDPOINT + escaped)[|API_ENDPOINT|..] == escaped;
    API_ENDPOINT + escaped
  }

  lemma EscapedKeyFacts(apiKey: string)
    ensures |PercentEncoding.Escape(apiKey)| == PercentEncoding.KeptCount(apiKey) + 3 * PercentEncoding.EncodedByteCount(apiKey)
    ensures PercentEncoding.IsAsciiString(apiKey) ==>
      |PercentEncoding.Escape(apiKey)| == |apiKey| + 2 * PercentEncoding.CountReserved(apiKey)
    ensures '%' !in apiKey ==> PercentEncoding.Unescape(PercentEncoding.Escape(apiKey)) == apiKey
  {
    PercentEncoding.EscapeLength(apiKey);
    if PercentEncoding.IsAsciiString(apiKey) {
      PercentEncoding.EscapeLengthAscii(apiKey);
    }
    if '%' !in apiKey {
      PercentEncoding.UnescapeEscape(apiKey);
    }
  }

  /**
    `targetAPIURL`. The source force-unwraps `NSURL(string:)`; `None` stands for the
    run-time trap that happens when Foundation refuses the string.
   */
  function TargetAPIURL(env: Collaborators, req: Request): (r: Option<URL>)
    ensures r.Some? <==> env.isValidURLString(TargetAPIURLString(req.apiKey))
    ensures r.Some? ==> r.value.absoluteString == TargetAPIURLString(req.apiKey)
  {
    URLWithString(env, TargetAPIURLString(req.apiKey))
  }

  /** The key from the URL-building test is copied as it is. */
  lemma TargetURLForFoo()
    ensures TargetAPIURLString("foo") == "https://www.googleapis.com/urlshortener/v1/url?key=foo"
  {
    assert PercentEncoding.NothingToEncode("foo");
    PercentEncoding.EscapeOfUnreserved("foo");
  }

  /** The key from the key-escaping test has its `=` percent-encoded. */
  lemma TargetURLForFooBar()
    ensures TargetAPIURLString("foo=bar") == "https://www.googleapis.com/urlshortener/v1/url?key=foo%3Dbar"
  {
    PercentEncoding.EscapeFooBar();
    assert API_ENDPOINT + "foo%3Dbar" == "https://www.googleapis.com/urlshortener/v1/url?key=foo%3Dbar" by {
      EndpointThen("foo%3Dbar");
    }
  }

  lemma EndpointThen(k: string)
    ensures API_ENDPOINT + k == "https://www.googleapis.com/urlshortener/v1/url?key=" + k
  {
  }

  /** An immutable snapshot of a URL request: what `URLRequest` hands to the transport. */
  datatype HTTPRequest = HTTPRequest(
    url: URL,
    httpMethod: string,
    headerFields: map<string, string>,
    httpBody: Option<string>)

  /** The body `NSJSONSerialization` writes for `["longUrl": URL.absoluteString]`. */
  function RequestBody(req: Request): (body: string)
    ensures body == JsonText.SerializeSingleton("longUrl", req.url.absoluteString)
    ensures JsonText.ParseSingleton(body) == Some(("longUrl", req.url.absoluteString))
  {
    JsonText.ParseSerializeSingleton("longUrl", req.url.absoluteString);
    JsonText.SerializeSingleton("longUrl", req.url.absoluteString)
  }

  /** What `URLRequest` evaluates to, for a key whose endpoint Foundation accepts. */
  function URLRequestSpec(env: Collaborators, req: Request): (r: HTTPRequest)
    requires TargetAPIURL(env, req).Some?
    ensures r.url.absoluteString == TargetAPIURLString(req.apiKey)
    ensures r.httpMethod == "POST"
    ensures r.headerFields == map["Content-Type" := "application/json"]
    ensures r.httpBody == Some(RequestBody(req))
    ensures r.httpBody.Some? && JsonText.ParseSingleton(r.httpBody.value) == Some(("longUrl", req.url.absoluteString))
  {
    HTTPRequest(
      TargetAPIURL(env, req).value,
      "POST",
      map["Content-Type" := "application/json"],
      Some(RequestBody(req)))
  }

  /** The request from the request-building test. */
  lemma SampleURLRequest(env: Collaborators)
    requires TargetAPIURL(env, Request("foo", URL("https://developers.google.com/"))).Some?
    ensures var r := URLRequestSpec(env, Request("foo", URL("https://developers.google.com/")));
      && r.httpBody == Some("{\"longUrl\":\"" + "https:\\/\\/developers.google.com\\/" + "\"}")
      && r.httpMethod == "POST"
      && r.headerFields["Content-Type"] == "application/json"
  {
    JsonText.SerializeDevelopersURL();
  }

  /** `NSMutableURLRequest`: a request whose parts are set one after the other. */
  class MutableURLRequest {
    var url: URL
    var httpMethod: string
    var headerFields: map<string, string>
    var httpBody: Option<string>

    /** `NSMutableURLRequest(URL:)`: a GET with no header fields and no body. */
    constructor (url: URL)
      ensures this.url == url && httpMethod == "GET" && headerFields == map[] && httpBody == None
    {
      this.url := url;
      httpMethod := "GET";
      headerFields := map[];
      httpBody := None;
    }

    /** `setValue(_:forHTTPHeaderField:)`. */
    method SetValue(value: string, field: string)
      modifies this
      ensures headerFields == old(headerFields)[field := value]
      ensures url == old(url) && httpMethod == old(httpMethod) && httpBody == old(httpBody)
    {
      headerFields := headerFields[field := value];
    }

    /** Assignment to `HTTPMethod`. */
    method SetHTTPMethod(m: string)
      modifies this
      ensures httpMethod == m
      ensures url == old(url) && headerFields == old(headerFields) && httpBody == old(httpBody)
    {
      httpMethod := m;
    }

    /** Assignment to `HTTPBody`. */
    method SetHTTPBody(body: Option<string>)
      modifies this
      ensures httpBody == body
      ensures url == old(url) && httpMethod == old(httpMethod) && headerFields == old(headerFields)
    {
      httpBody := body;
    }

    function Snapshot(): HTTPRequest
      reads this
    {
      HTTPRequest(url, httpMethod, headerFields, httpBody)
    }
  }

  /**
    `URLRequest`: builds the mutable request step by step, as the source does.
    The result is the request `URLRequestSpec` describes.
   */
  method MakeURLRequest(env: Collaborators, req: Request) returns (request: MutableURLRequest)
    requires TargetAPIURL(env, req).Some?
    ensures fresh(request)
    ensures request.Snapshot() == URLRequestSpec(env, req)
  {
    request := new MutableURLRequest(TargetAPIURL(env, req).value);
    request.SetValue("application/json", "Content-Type");
    request.SetHTTPMethod("POST");
    request.SetHTTPBody(Some(RequestBody(req)));
  }

  /** Whether a decoded response is an object whose `"id"` is a string Foundation accepts as a URL. */
  predicate CarriesShortURL(env: Collaborators, json: Option<Json>) {
    && json.Some?
    && json.value.JObject?
    && "id" in json.value.fields
    && json.value.fields["id"].JString?
    && env.isValidURLString(json.value.fields["id"].s)
  }

  /** `parseResponseData`: the guard chain over the decoded response. It never fails; a miss is `None`. */
  function ParseResponseData(env: Collaborators, data: seq<byte>): (r: Option<URL>)
    ensures r.Some? <==> CarriesShortURL(env, env.jsonObjectWithData(data))
    ensures r.Some? ==> r.value == URL(env.jsonObjectWithData(data).value.fields["id"].s)
  {
    match env.jsonObjectWithData(data)
    case None => None
    case Some(json) =>
      match json
      case JObject(fields) =>
        if "id" in fields then
          match fields["id"]
          case JString(s) => URLWithString(env, s)
          case _ => None
        else None
      case _ => None
  }

  /** The response from the parsing test yields its `"id"`. */
  lemma SampleResponseParses(env: Collaborators, data: seq<byte>)
    requires env.jsonObjectWithData(data) == Some(JObject(map[
      "kind" := JString("urlshortener#url"),
      "id" := JString("http://goo.gl/fbsS"),
      "longUrl" := JString("http://www.google.com/")]))
    requires env.isValidURLString("http://goo.gl/fbsS")
    ensures ParseResponseData(env, data) == Some(URL("http://goo.gl/fbsS"))
  {
  }

  predicate IsSuccessStatus(statusCode: int) {
    !(statusCode < 200 || statusCode > 299)
  }

  /**
    The body of the completion handler passed to the transport in `getShortURL(completion:)`:
    the first failing check decides. Stated here outcome by outcome, each in both directions.
   */
  function Classify(env: Collaborators, data: Option<seq<byte>>, response: Option<URLResponse>, error: Option<NSError>): (r: Completion)
    // Exactly one of the two values is present.
    ensures r.0.Some? != r.1.Some?
    // A transport error wins over everything else.
    ensures (r.1.Some? && r.1.value.NetworkError?) <==> error.Some?
    ensures error.Some? ==> r.1 == Some(NetworkError(error.value))
    // An HTTP error is reported exactly for a real HTTP response with a status outside 200...299.
    ensures (r.1.Some? && r.1.value.HTTPError?) <==>
      (error.None? && response.Some? && response.value.HTTPURLResponse? && !IsSuccessStatus(response.value.statusCode))
    ensures r.1.Some? && r.1.value.HTTPError? ==> r.1.value.response == response.value
    // The unexpected cases: no (HTTP) response, or success without data.
    ensures r.1 == Some(UnexpectedError(NO_RESPONSE)) <==>
      (error.None? && (response.None? || !response.value.HTTPURLResponse?))
    ensures r.1 == Some(UnexpectedError(NO_DATA)) <==>
      (error.None? && response.Some? && response.value.HTTPURLResponse? && IsSuccessStatus(response.value.statusCode) && data.None?)
    ensures r.1.Some? && r.1.value.UnexpectedError? ==> r.1.value.description in {NO_RESPONSE, NO_DATA}
    // The body is looked at only after every other check has passed.
    ensures r.1 == Some(ResponseParseError) <==>
      (error.None? && response.Some? && response.value.HTTPURLResponse? && IsSuccessStatus(response.value.statusCode)
       && data.Some? && ParseResponseData(env, data.value).None?)
    ensures r.0.Some? <==>
      (error.None? && response.Some? && response.value.HTTPURLResponse? && IsSuccessStatus(response.value.statusCode)
       && data.Some? && ParseResponseData(env, data.value).Some?)
    ensures r.0.Some? ==> r.0 == ParseResponseData(env, data.value)
  {
    if error.Some? then (None, Some(NetworkError(error.value)))
    else if response.None? || !response.value.HTTPURLResponse? then (None, Some(UnexpectedError(NO_RESPONSE)))
    else if response.value.statusCode < 200 || response.value.statusCode > 299 then (None, Some(HTTPError(response.value)))
    else if data.None? then (None, Some(UnexpectedError(NO_DATA)))
    else match ParseResponseData(env, data.value)
      case None => (None, Some(ResponseParseError))
      case Some(shortURL) => (Some(shortURL), None)
  }

  /** With a transport error, neither the response, the data nor the JSON decoder matter. */
  lemma NetworkErrorIgnoresTheRest(env1: Collaborators, env2: Collaborators,
                                   data1: Option<seq<byte>>, data2: Option<seq<byte>>,
                                   response1: Option<URLResponse>, response2: Option<URLResponse>, error: NSError)
    ensures Classify(env1, data1, response1, Some(error)) == Classify(env2, data2, response2, Some(error))
  {
  }

  /** Outside 200...299 the body is never parsed: neither it nor the JSON decoder changes the outcome. */
  lemma HTTPErrorNeverParses(env1: Collaborators, env2: Collaborators,
                             data1: Option<seq<byte>>, data2: Option<seq<byte>>, response: URLResponse)
    requires response.HTTPURLResponse? && !IsSuccessStatus(response.statusCode)
    ensures Classify(env1, data1, Some(response), None) == Classify(env2, data2, Some(response), None)
    ensures Classify(env1, data1, Some(response), None) == (None, Some(HTTPError(response)))
  {
  }

  /** A 2xx response without data is an unexpected error, never a parse error. */
  lemma SuccessWithoutDataIsUnexpected(env: Collaborators, response: URLResponse)
    requires response.HTTPURLResponse? && IsSuccessStatus(response.statusCode)
    ensures Classify(env, None, Some(response), None) == (None, Some(UnexpectedError(NO_DATA)))
  {
  }

  /** A 2xx response whose JSON object has no `"id"` is a parse error. */
  lemma ObjectWithoutIdIsParseError(env: Collaborators, data: seq<byte>, response: URLResponse, fields: map<string, Json>)
    requires response.HTTPURLResponse? && IsSuccessStatus(response.statusCode)
    requires env.jsonObjectWithData(data) == Some(JObject(fields)) && "id" !in fields
    ensures Classify(env, Some(data), Some(response), None) == (None, Some(ResponseParseError))
  {
  }

  /** What the transport delivers: `(NSData?, NSURLResponse?, NSError?)`. */
  datatype TransportResult = TransportResult(data: Option<seq<byte>>, response: Option<URLResponse>, error: Option<NSError>)

  /**
    `getShortURL(completion:)`: sends `URLRequest` through the transport and hands the
    classified outcome to the completion handler, once.
   */
  function GetShortURL(env: Collaborators, transport: HTTPRequest -> TransportResult, req: Request): (r: Completion)
    requires TargetAPIURL(env, req).Some?
    ensures r.0.Some? != r.1.Some?
    ensures var t := transport(URLRequestSpec(env, req)); r == Classify(env, t.data, t.response, t.error)
  {
    var t := transport(URLRequestSpec(env, req));
    Classify(env, t.data, t.response, t.error)
  }

  /** What the blocking form does: return a value or throw an error. */
  datatype Thrown<T> = Returned(value: T) | Threw(error: URLShortenerError)

  /**
    The end of `getShortURL()`: throw the error when there is one, otherwise return the
    URL. `shortURL!` traps when both are missing, hence the requirement.
   */
  function ThrowOrReturn(c: Completion): (r: Thrown<URL>)
    requires c.0.Some? || c.1.Some?
    ensures r.Threw? <==> c.1.Some?
    ensures r.Threw? ==> r.error == c.1.value
    ensures r.Returned? ==> c.0 == Some(r.value)
  {
    if c.1.Some? then Threw(c.1.value) else Returned(c.0.value)
  }

  /**
    `getShortURL()`: the completion handler stores what it is given in two local
    variables, which are read once it has run.
   */
  method GetShortURLBlocking(env: Collaborators, transport: HTTPRequest -> TransportResult, req: Request)
    returns (r: Thrown<URL>)
    requires TargetAPIURL(env, req).Some?
    ensures r == ThrowOrReturn(GetShortURL(env, transport, req))
    ensures var t := transport(URLRequestSpec(env, req));
      r.Threw? ==> Classify(env, t.data, t.response, t.error).1 == Some(r.error)
  {
    var shortURL: Option<URL> := None;
    var error: Option<URLShortenerError> := None;
    var delivered := GetShortURL(env, transport, req);
    shortURL, error := delivered.0, delivered.1;
    if error.Some? {
      r := Threw(error.value);
    } else {
      r := Returned(shortURL.value);
    }
  }
}
