# URLShortener request pipeline in Dafny

A model of `URLShortenerRequest`, a Swift client for the Google URL-shortener endpoint.
Given an API key and a long URL, the client

- builds the endpoint `https://www.googleapis.com/urlshortener/v1/url?key=` followed by the escaped key.
  The allowed set is everything except the eighteen characters `:/?#[]@!$&'()*+,;=`.
  Foundation ignores allowed characters outside 7-bit ASCII, so those eighteen and every non-ASCII character are encoded.
  An encoded character becomes one `%XX` triplet, with upper-case hex, per byte of its UTF-8 encoding (`é` becomes `%C3%A9`);
- builds a `POST` request with header `Content-Type: application/json` and the body `{"longUrl":"…"}`;
- hands the request to a transport and classifies the `(data, response, error)` triple it gets back.
  The classification is first-match: network error, no HTTP response, non-2xx status, no data, parse failure, success;
- offers a blocking form that throws the classified error or returns the short URL.

Files and modules:

- `wrappers.dfy` (`Wrappers`): `Option`, standing for Swift optionals.
- `foundation.dfy` (`Foundation`): the Foundation values the client inspects (`URL`, `NSError`, `URLResponse`, a decoded `Json` value).
  It also holds a `Collaborators` record with the two Foundation services that are not modelled:
  `jsonObjectWithData` (bytes to an optional JSON value) and `isValidURLString` (whether `NSURL(string:)` succeeds).
  Every operation that uses them is proved for every behaviour of them.
- `percent_encoding.dfy` (`PercentEncoding`): `String.URLEncodedString` as the recursive function `Escape`.
  It comes with `Unescape`, its inverse on keys without `%`.
- `json_text.dfy` (`JsonText`): the JSON text written for a one-key dictionary with a string value.
  Strings are escaped per section 7 of RFC 8259, with `/` written `\/` as Foundation does.
  A reader `ParseSingleton` is its proved inverse.
- `url_shortener.dfy` (`URLShortener`): the error enum, the endpoint, the request, the response parser, the classifier, and the blocking bridge.
  `NSMutableURLRequest` is a class whose setters are called one after another, as `URLRequest` does.

Facts about the code that the model keeps:

- ASCII white space in the key is in the allowed set and is copied unchanged (`EscapeKeepsSpace`); non-ASCII white space is encoded like any other non-ASCII character.
- `%` is in the allowed set too and is copied, which is why two keys can escape to the same text (`EscapeIsNotInjective`).
- `targetAPIURL` force-unwraps `NSURL(string:)` and traps when Foundation refuses the string.
  `TargetAPIURL` returns `None` for that case. The operations that use the endpoint require it to be present, since the Swift code traps otherwise.
- The outcome handed to the completion handler is the pair `(NSURL?, URLShortenerError?)`.
  `URLShortenerError` (URLShortenerRequest.swift:3-8) has four cases: `UnexpectedError`, `HTTPError`, `NetworkError` and `ResponseParseError`.
  `Classify` proves that exactly one half of the pair is present.

## Model

| member | source | states |
|---|---|---|
| `PercentEncoding.IsReserved` | URLShortenerRequest.swift:107 | the eighteen characters outside the allowed set are ASCII, none is `%` and none is a hex digit, so encoding output is never re-encoded |
| `PercentEncoding.Utf8` | URLShortenerRequest.swift:108 | a character's UTF-8 encoding has one to four bytes, a single byte equal to the code exactly for ASCII, a lead byte announcing the length, and continuation bytes after it |
| `PercentEncoding.Utf8RoundTrip` | URLShortenerRequest.swift:108 | decoding the UTF-8 bytes of a character gives the character back |
| `PercentEncoding.PercentByte` | URLShortenerRequest.swift:108 | an encoded byte is `%` and two upper-case hex digits whose value is the byte |
| `PercentEncoding.PercentBytes` | URLShortenerRequest.swift:108 | the triplets of a byte sequence take three characters per byte and need no further encoding |
| `PercentEncoding.EncodeChar` | URLShortenerRequest.swift:106-109 | a character outside the allowed set becomes the triplets of its UTF-8 bytes; an allowed ASCII character is kept |
| `PercentEncoding.Escape` | URLShortenerRequest.swift:106-109 | the escaped key is never shorter than the key and holds no reserved and no non-ASCII character |
| `PercentEncoding.EscapeSingle` | URLShortenerRequest.swift:106-109 | one reserved character becomes its `%XX` triplet, a non-ASCII one becomes two to four triplets, and any other character, `%` included, is kept |
| `PercentEncoding.EscapeConcat` | URLShortenerRequest.swift:106-109 | escaping works character by character and in order: it distributes over concatenation |
| `PercentEncoding.EscapeLength` | URLShortenerRequest.swift:106-109 | escaped length is one per copied character plus three per encoded UTF-8 byte |
| `PercentEncoding.EscapeLengthAscii` | URLShortenerRequest.swift:106-109 | for an ASCII key, escaped length is the key's length plus two per reserved character |
| `PercentEncoding.EscapeOfUnreserved` | URLShortenerRequest.swift:106-109 | a string with no reserved and no non-ASCII character is left unchanged |
| `PercentEncoding.EscapeFixedPoint` | URLShortenerRequest.swift:106-109 | escaping leaves a string unchanged if and only if it has no reserved and no non-ASCII character |
| `PercentEncoding.EscapeIdempotent` | URLShortenerRequest.swift:106-109 | escaping an escaped string changes nothing |
| `PercentEncoding.ReadPercentBytes` | URLShortenerRequest.swift:108 | the triplets written for a byte sequence are read back as that sequence |
| `PercentEncoding.DecodeEncodedChar` | URLShortenerRequest.swift:106-109 | the triplets written for an encoded character are decoded as that character, taking exactly their length |
| `PercentEncoding.UnescapeEscape` | URLShortenerRequest.swift:106-109 | a key without `%`, ASCII or not, is recovered exactly by decoding its escaped form |
| `PercentEncoding.EscapeIsNotInjective` | URLShortenerRequest.swift:107 | because `%` passes through, the keys `=` and `%3D` escape to the same text |
| `PercentEncoding.EscapeOneReserved` | URLShortenerRequest.swift:106-109 | a key with one reserved character between parts that need no encoding has just that character encoded |
| `PercentEncoding.EscapeFooBar` | URLShortenerRequestTests.swift:12-15 | `foo=bar` escapes to `foo%3Dbar` |
| `PercentEncoding.EscapeKeepsSpace` | URLShortenerRequest.swift:107 | the space in `a b` is copied, and each ASCII white-space character (space, tab, line feed, vertical tab, form feed, carriage return) escapes to itself |
| `PercentEncoding.EscapeNonAscii` | URLShortenerRequest.swift:106-109 | `é` is written as its two UTF-8 bytes, `%C3%A9` |
| `URLShortener.TargetAPIURLString` | URLShortenerRequest.swift:20-22 | the endpoint is the fixed base and `?key=` followed by exactly the escaped key; that part needs no encoding, has the escaped length, and decodes back to a `%`-free key |
| `URLShortener.TargetAPIURL` | URLShortenerRequest.swift:20-22 | the endpoint URL exists exactly when Foundation accepts its text; otherwise the force-unwrap traps |
| `URLShortener.EscapedKeyFacts` | URLShortenerRequest.swift:21 | the escaped key's length, for any key and for an ASCII key, and its recovery by decoding |
| `URLShortener.TargetURLForFoo` | URLShortenerRequestTests.swift:7-10 | key `foo` gives `…/v1/url?key=foo` |
| `URLShortener.TargetURLForFooBar` | URLShortenerRequestTests.swift:12-15 | key `foo=bar` gives `…/v1/url?key=foo%3Dbar` |
| `JsonText.ReadEscapedString` | URLShortenerRequest.swift:28 | the string reader recovers every escaped string and stops right after its closing quote |
| `JsonText.ParseSerializeSingleton` | URLShortenerRequest.swift:28 | reading `{"key":"value"}` back gives the key and value that were written |
| `JsonText.EscapeChar` | URLShortenerRequest.swift:28 | each character is written as one to six characters, none of them a control character |
| `JsonText.EscapeString` | URLShortenerRequest.swift:28 | an escaped string holds no raw control character and is never shorter than the original |
| `JsonText.SerializeSingleton` | URLShortenerRequest.swift:28 | the body is an object in braces, at least seven characters longer than key and value together, with no raw control character |
| `JsonText.SolidusAlwaysEscaped` | URLShortenerRequest.swift:28 | every `/` in an escaped string is preceded by a backslash |
| `JsonText.EscapeSolidus` | URLShortenerRequest.swift:28 | a `/` anywhere in a string is written as `\/`, and the text on either side is escaped on its own |
| `JsonText.EscapeStringConcat` | URLShortenerRequest.swift:28 | JSON string escaping distributes over concatenation |
| `JsonText.EscapeStringOfPlain` | URLShortenerRequest.swift:28 | characters other than quote, backslash, solidus and control characters are written as they are |
| `JsonText.EscapeSchemeHostURL` | URLShortenerRequest.swift:28 | a URL `scheme//host/` is written with each of its three slashes escaped |
| `JsonText.SerializeDevelopersURL` | URLShortenerRequestTests.swift:17-20 | the body for `https://developers.google.com/` is `{"longUrl":"https:\/\/developers.google.com\/"}` |
| `URLShortener.RequestBody` | URLShortenerRequest.swift:28 | the body is the serialised one-key object `longUrl` mapped to the URL's absolute string, and reads back as that pair |
| `URLShortener.URLRequestSpec` | URLShortenerRequest.swift:24-30 | the request goes to the target URL, uses `POST`, has exactly the header `Content-Type: application/json`, and carries exactly `RequestBody`, a body that reads back as `longUrl` mapped to the long URL |
| `URLShortener.SampleURLRequest` | URLShortenerRequestTests.swift:17-23 | the test's request has the expected body, method `POST` and `Content-Type` header |
| `URLShortener.MutableURLRequest.constructor` | URLShortenerRequest.swift:25 | a new mutable request is a `GET` to the given URL with no header fields and no body |
| `URLShortener.MutableURLRequest.SetValue` | URLShortenerRequest.swift:26 | setting a header field changes only that field |
| `URLShortener.MutableURLRequest.SetHTTPMethod` | URLShortenerRequest.swift:27 | setting the method changes only the method |
| `URLShortener.MutableURLRequest.SetHTTPBody` | URLShortenerRequest.swift:28 | setting the body changes only the body |
| `URLShortener.MakeURLRequest` | URLShortenerRequest.swift:24-30 | building the request step by step yields a fresh request equal to `URLRequestSpec` |
| `Foundation.URLWithString` | URLShortenerRequest.swift:37 | `NSURL(string:)` gives a URL exactly when Foundation accepts the string, and that URL's absolute string is the string |
| `URLShortener.ParseResponseData` | URLShortenerRequest.swift:32-40 | a URL is returned exactly when the decoded JSON is an object whose `id` is a string Foundation accepts, and it is that string's URL; otherwise `None` |
| `URLShortener.SampleResponseParses` | URLShortenerRequestTests.swift:25-30 | the test's response object yields `http://goo.gl/fbsS` |
| `URLShortener.Classify` | URLShortenerRequest.swift:44-80 | exactly one of URL and error is present; each outcome is characterised in both directions by the first failing check, in the order network error, no HTTP response, status outside 200-299, no data, parse failure |
| `URLShortener.NetworkErrorIgnoresTheRest` | URLShortenerRequest.swift:47-51 | with a transport error, the response, the data and the decoder do not affect the outcome |
| `URLShortener.HTTPErrorNeverParses` | URLShortenerRequest.swift:60-64 | outside 200-299 the outcome is `HTTPError` with that response, whatever the data and decoder |
| `URLShortener.SuccessWithoutDataIsUnexpected` | URLShortenerRequest.swift:66-71 | a 2xx response with no data is the "no response data" unexpected error, not a parse error |
| `URLShortener.ObjectWithoutIdIsParseError` | URLShortenerRequest.swift:73-77 | a 2xx response whose JSON object lacks `id` is a parse error |
| `URLShortener.GetShortURL` | URLShortenerRequest.swift:42-83 | the request sent is `URLRequestSpec`, and the one value delivered is the classification of the transport's answer, with exactly one half present |
| `URLShortener.ThrowOrReturn` | URLShortenerRequest.swift:95-99 | the error is thrown exactly when present; otherwise the URL is returned |
| `URLShortener.GetShortURLBlocking` | URLShortenerRequest.swift:85-100 | the blocking form throws or returns what the completion handler received, and throws only the classified error |

## Left out

- The transport (`NSURLSession.dataTaskWithRequest` and `resume`, URLShortenerRequest.swift:44 and 82) is a network call. It is a function parameter from the request to the `(data, response, error)` triple.
- The semaphore in `getShortURL()` (URLShortenerRequest.swift:86-94) is concurrency. It blocks without a time limit and is not modelled; the completion handler is taken to run once before the result is read.
- `NSJSONSerialization.JSONObjectWithData` and `NSURL(string:)` are Foundation internals. They are the `Collaborators` parameters, unconstrained.
- `URLShortener.ParseResponseData`: a URL made by `NSURL(string: s)` is modelled as having absolute string `s`; any normalisation Foundation does is not modelled.
- Strings are sequences of Unicode scalar values; Swift's grapheme clusters do not affect percent-encoding, which works on UTF-8 bytes.
- The force-unwrap of `stringByAddingPercentEncodingWithAllowedCharacters` (URLShortenerRequest.swift:108) is taken never to trap, since every string of scalar values has a UTF-8 encoding.
- The request body is modelled as its characters, not as UTF-8 bytes.
- Header field names are compared exactly; the case-insensitive lookup of `NSURLRequest` is not modelled.
- `JsonText.EscapeChar` writes control characters without a short escape as `\u00` and lower-case hex. Foundation's letter case is not confirmed; a URL's absolute string has no control characters, so the request body does not depend on it.
- `JsonText.ReadString` does not decode surrogate pairs written as two `\u` escapes; it is only the inverse of the writer, not a full JSON reader.
- `NSError` and `NSURLResponse` carry only a domain and code, and a status code and header fields.
- Calling the blocking form twice with a deterministic transport gives the same result. This holds because every operation is a function of its inputs; no separate lemma states it.
- URLShortener.playground/Contents.swift is a demo script and is not part of this model.
  It matches on a `.Success` case that the error enum does not have.
