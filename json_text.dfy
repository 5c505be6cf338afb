/**
  The JSON text `NSJSONSerialization.dataWithJSONObject` writes for a dictionary with
  one string key and one string value, `{"key":"value"}` without white space, and a
  reader for exactly that shape, used as its inverse. String escaping follows
  section 7 of RFC 8259, with the solidus written as `\/` as Foundation does.
 */
module JsonText {
  import opened Wrappers

  const LOWER_HEX: string := "0123456789abcdef"

  /** The escape sequence, or the character itself, that stands for `c` inside a JSON string. */
  function EscapeChar(c: char): (t: string)
    ensures 1 <= |t| <= 6 && NoControl(t)
  {
    if c == '"' then ['\\', '"']
    else if c == '\\' then ['\\', '\\']
    else if c == '/' then ['\\', '/']
    else if c as int == 0x08 then ['\\', 'b']
    else if c as int == 0x0C then ['\\', 'f']
    else if c == '\n' then ['\\', 'n']
    else if c == '\r' then ['\\', 'r']
    else if c == '\t' then ['\\', 't']
    else if (c as int) < 0x20 then ['\\', 'u', '0', '0', LOWER_HEX[c as int / 16], LOWER_HEX[c as int % 16]]
    else [c]
  }

  /** No character below U+0020, which RFC 8259 forbids unescaped inside a string. */
  predicate NoControl(s: string) {
    forall i :: 0 <= i < |s| ==> (s[i] as int) >= 0x20
  }

  /**
    The contents of a JSON string literal for `s`, without the surrounding quotes: it
    holds no raw control character and is never shorter than `s`.
   */
  function EscapeString(s: string): (r: string)
    ensures NoControl(r) && |r| >= |s|
  {
    if s == [] then []
    else
      var head, tail := EscapeChar(s[0]), EscapeString(s[1..]);
      assert forall i :: |head| <= i < |head + tail| ==> (head + tail)[i] == tail[i - |head|];
      head + tail
  }

  /** `{"key":"value"}`: an object in braces whose text holds no raw control character. */
  function SerializeSingleton(key: string, value: string): (r: string)
    ensures |r| >= 7 + |key| + |value|
    ensures r[0] == '{' && r[|r| - 1] == '}'
    ensures NoControl(r)
  {
    var k, v := EscapeString(key), EscapeString(value);
    var r := "{\"" + k + "\":\"" + v + "\"}";
    assert r == ['{', '"'] + k + [ '"', ':', '"'] + v + ['"', '}'];
    r
  }

  predicate IsHexDigit(h: char) {
    ('0' <= h <= '9') || ('a' <= h <= 'f') || ('A' <= h <= 'F')
  }

  function HexValue(h: char): (d: nat)
    requires IsHexDigit(h)
    ensures d < 16
  {
    if '0' <= h <= '9' then h as int - '0' as int
    else if 'a' <= h <= 'f' then h as int - 'a' as int + 10
    else h as int - 'A' as int + 10
  }

  /**
    Reads one escape sequence at the start of `s` (which starts with a backslash):
    the character it stands for and how many characters it takes. A `\u` escape
    naming half of a surrogate pair is refused.
   */
  function ReadEscape(s: string): (r: Option<(char, nat)>)
    requires |s| >= 1 && s[0] == '\\'
    ensures r.Some? ==> 2 <= r.value.1 <= |s|
  {
    if |s| < 2 then None
    else if s[1] == '"' then Some(('"', 2))
    else if s[1] == '\\' then Some(('\\', 2))
    else if s[1] == '/' then Some(('/', 2))
    else if s[1] == 'b' then Some((0x08 as char, 2))
    else if s[1] == 'f' then Some((0x0C as char, 2))
    else if s[1] == 'n' then Some(('\n', 2))
    else if s[1] == 'r' then Some(('\r', 2))
    else if s[1] == 't' then Some(('\t', 2))
    else if s[1] == 'u' && |s| >= 6 && IsHexDigit(s[2]) && IsHexDigit(s[3]) && IsHexDigit(s[4]) && IsHexDigit(s[5]) then
      var n := ((HexValue(s[2]) * 16 + HexValue(s[3])) * 16 + HexValue(s[4])) * 16 + HexValue(s[5]);
      if 0xD800 <= n < 0xE000 then None else Some((n as char, 6))
    else None
  }

  /**
    Reads the rest of a JSON string literal whose opening quote has been consumed:
    the decoded contents and what follows the closing quote. Unescaped control
    characters and unterminated strings are refused.
   */
  function ReadString(s: string): (r: Option<(string, string)>)
    ensures r.Some? ==> |r.value.1| < |s| && r.value.1 == s[|s| - |r.value.1|..]
  {
    if s == [] then None
    else if s[0] == '"' then Some(([], s[1..]))
    else if (s[0] as int) < 0x20 then None
    else
      var first := if s[0] == '\\' then ReadEscape(s) else Some((s[0], 1));
      match first
      case None => None
      case Some((c, n)) =>
        match ReadString(s[n..])
        case None => None
        case Some((t, rest)) => Some(([c] + t, rest))
  }

  /** Reads `{"key":"value"}` back into its key and value; anything else is refused. */
  function ParseSingleton(text: string): (r: Option<(string, string)>)
  {
    if |text| < 2 || text[0] != '{' || text[1] != '"' then None
    else match ReadString(text[2..])
      case None => None
      case Some((key, afterKey)) =>
        match ParseValuePart(afterKey)
        case None => None
        case Some(value) => Some((key, value))
  }

  /** Reads `:"value"}` up to the end of the text. */
  function ParseValuePart(text: string): (r: Option<string>)
  {
    if |text| < 2 || text[0] != ':' || text[1] != '"' then None
    else match ReadString(text[2..])
      case None => None
      case Some((value, rest)) => if rest == "}" then Some(value) else None
  }

  /** What reading `c`'s escape and then `t` gives: `c` in front of what reading `t` gives. */
  function Prepend(c: char, r: Option<(string, string)>): Option<(string, string)> {
    match r
    case None => None
    case Some((u, rest)) => Some(([c] + u, rest))
  }

  lemma ReadShortEscape(c: char, t: string)
    requires |EscapeChar(c)| == 2
    ensures ReadString(EscapeChar(c) + t) == Prepend(c, ReadString(t))
  {
    var e := EscapeChar(c);
    var s := e + t;
    assert s[0] == '\\' && s[1] == e[1];
    assert s[2..] == t;
    assert ReadEscape(s) == Some((c, 2));
  }

  lemma ReadUnicodeEscape(c: char, t: string)
    requires |EscapeChar(c)| == 6
    ensures ReadString(EscapeChar(c) + t) == Prepend(c, ReadString(t))
  {
    var e := EscapeChar(c);
    var s := e + t;
    var hi, lo := c as int / 16, c as int % 16;
    assert e == ['\\', 'u', '0', '0', LOWER_HEX[hi], LOWER_HEX[lo]];
    assert s[0] == '\\' && s[1] == 'u' && s[2] == '0' && s[3] == '0' && s[4] == LOWER_HEX[hi] && s[5] == LOWER_HEX[lo];
    assert s[6..] == t;
    assert HexValue(LOWER_HEX[hi]) == hi;
    assert HexValue(LOWER_HEX[lo]) == lo;
    assert ReadEscape(s) == Some((c, 6));
  }

  lemma ReadPlainChar(c: char, t: string)
    requires EscapeChar(c) == [c]
    ensures ReadString(EscapeChar(c) + t) == Prepend(c, ReadString(t))
  {
    var s := [c] + t;
    assert s[0] == c && s[1..] == t;
  }

  /** Reading an escaped character back gives that character, and the reader goes on after it. */
  lemma ReadEscapeChar(c: char, t: string)
    ensures ReadString(EscapeChar(c) + t) == Prepend(c, ReadString(t))
  {
    var e := EscapeChar(c);
    if |e| == 2 {
      ReadShortEscape(c, t);
    } else if |e| == 6 {
      ReadUnicodeEscape(c, t);
    } else {
      ReadPlainChar(c, t);
    }
  }

  /** The reader recovers every string the writer escapes, and stops at the closing quote. */
  lemma {:induction false} ReadEscapedString(x: string, rest: string)
    ensures ReadString(EscapeString(x) + ['"'] + rest) == Some((x, rest))
  {
    if x == [] {
      assert EscapeString(x) + ['"'] + rest == ['"'] + rest;
      assert (['"'] + rest)[1..] == rest;
    } else {
      var tail := EscapeString(x[1..]) + ['"'] + rest;
      assert EscapeString(x) + ['"'] + rest == EscapeChar(x[0]) + tail;
      ReadEscapedString(x[1..], rest);
      ReadEscapeChar(x[0], tail);
      assert [x[0]] + x[1..] == x;
    }
  }

  lemma ParseEscapedValuePart(value: string)
    ensures ParseValuePart([':', '"'] + EscapeString(value) + ['"', '}']) == Some(value)
  {
    var text := [':', '"'] + EscapeString(value) + ['"', '}'];
    assert text[2..] == EscapeString(value) + ['"'] + "}";
    ReadEscapedString(value, "}");
  }

  /** `ParseSingleton` is a left inverse of `SerializeSingleton`. */
  lemma ParseSerializeSingleton(key: string, value: string)
    ensures ParseSingleton(SerializeSingleton(key, value)) == Some((key, value))
  {
    var afterKey := [':', '"'] + EscapeString(value) + ['"', '}'];
    var text := SerializeSingleton(key, value);
    SingletonLayout(key, value);
    assert text[0] == '{' && text[1] == '"';
    assert ReadString(text[2..]) == Some((key, afterKey)) by {
      ReadEscapedString(key, afterKey);
    }
    ParseEscapedValuePart(value);
  }

  lemma SingletonLayout(key: string, value: string)
    ensures var text := SerializeSingleton(key, value);
      && |text| >= 2 && text[0] == '{' && text[1] == '"'
      && text[2..] == EscapeString(key) + ['"'] + ([':', '"'] + EscapeString(value) + ['"', '}'])
  {
    var k, v := EscapeString(key), EscapeString(value);
    var tail := k + ['"'] + ([':', '"'] + v + ['"', '}']);
    assert SerializeSingleton(key, value) == ['{', '"'] + tail;
    assert (['{', '"'] + tail)[2..] == tail;
  }

  /** Escaping works character by character: it distributes over concatenation. */
  lemma {:induction false} EscapeStringConcat(a: string, b: string)
    ensures EscapeString(a + b) == EscapeString(a) + EscapeString(b)
  {
    if a == [] {
      assert a + b == b;
    } else {
      assert (a + b)[0] == a[0];
      assert (a + b)[1..] == a[1..] + b;
      EscapeStringConcat(a[1..], b);
    }
  }

  /** Every solidus in the output is escaped: it is preceded by a backslash. */
  lemma {:induction false} SolidusAlwaysEscaped(s: string)
    ensures forall i :: 0 <= i < |EscapeString(s)| && EscapeString(s)[i] == '/' ==> i > 0 && EscapeString(s)[i - 1] == '\\'
  {
    if s != [] {
      SolidusAlwaysEscaped(s[1..]);
      var e, t := EscapeChar(s[0]), EscapeString(s[1..]);
      assert EscapeString(s) == e + t;
      forall i | 0 <= i < |e + t| && (e + t)[i] == '/' ensures i > 0 && (e + t)[i - 1] == '\\' {
        if i < |e| {
          assert s[0] == '/' && i == 1;
        } else {
          assert (e + t)[i] == t[i - |e|];
          if i - |e| == 0 {
            assert false;
          }
          assert (e + t)[i - 1] == t[i - 1 - |e|];
        }
      }
    }
  }

  /** A solidus is written as `\/` wherever it occurs, and the text around it is escaped on its own. */
  lemma EscapeSolidus(a: string, b: string)
    ensures EscapeString(a + ['/'] + b) == EscapeString(a) + ['\\', '/'] + EscapeString(b)
  {
    var sl := ['/'];
    EscapeStringConcat(a + sl, b);
    EscapeStringConcat(a, sl);
    assert EscapeString(sl) == ['\\', '/'] by {
      assert sl[1..] == [];
    }
  }

  /** A character that a JSON string carries as it is. */
  predicate IsPlain(c: char) {
    c != '"' && c != '\\' && c != '/' && (c as int) >= 0x20
  }

  lemma {:induction false} EscapeStringOfPlain(s: string)
    requires forall i :: 0 <= i < |s| ==> IsPlain(s[i])
    ensures EscapeString(s) == s
  {
    if s != [] {
      EscapeStringOfPlain(s[1..]);
      assert s == [s[0]] + s[1..];
    }
  }

  /** A URL of the shape `scheme//host/` with plain `scheme` and `host`. */
  lemma EscapeSchemeHostURL(scheme: string, host: string)
    requires forall i :: 0 <= i < |scheme| ==> IsPlain(scheme[i])
    requires forall i :: 0 <= i < |host| ==> IsPlain(host[i])
    ensures EscapeString(scheme + ['/', '/'] + host + ['/']) == scheme + ['\\', '/', '\\', '/'] + host + ['\\', '/']
  {
    var sl: string := ['/'];
    var esc: string := ['\\', '/'];
    assert EscapeString(sl) == esc by {
      assert sl[1..] == [];
    }
    assert scheme + ['/', '/'] + host + ['/'] == scheme + (sl + (sl + (host + sl)));
    EscapeStringConcat(scheme, sl + (sl + (host + sl)));
    EscapeStringOfPlain(scheme);
    EscapeStringConcat(sl, sl + (host + sl));
    EscapeStringConcat(sl, host + sl);
    EscapeStringConcat(host, sl);
    EscapeStringOfPlain(host);
    Reassociate(scheme, host, esc);
  }

  lemma Reassociate(a: string, b: string, e: string)
    requires e == ['\\', '/']
    ensures a + (e + (e + (b + e))) == a + ['\\', '/', '\\', '/'] + b + ['\\', '/']
  {
  }

  lemma DevelopersURLShape()
    ensures "https://developers.google.com/" == "https:" + ['/', '/'] + "developers.google.com" + ['/']
    ensures "https:" + ['\\', '/', '\\', '/'] + "developers.google.com" + ['\\', '/'] == "https:\\/\\/developers.google.com\\/"
    ensures forall i :: 0 <= i < |"https:"| ==> IsPlain("https:"[i])
    ensures forall i :: 0 <= i < |"developers.google.com"| ==> IsPlain("developers.google.com"[i])
  {
  }

  lemma EscapeDevelopersURL()
    ensures EscapeString("https://developers.google.com/") == "https:\\/\\/developers.google.com\\/"
  {
    DevelopersURLShape();
    EscapeSchemeHostURL("https:", "developers.google.com");
  }

  /**
    The body from the request-building test, `{"longUrl":"https:\/\/developers.google.com\/"}`
    (written in three pieces): each `/` of the URL is written `\/`.
   */
  lemma SerializeDevelopersURL()
    ensures SerializeSingleton("longUrl", "https://developers.google.com/")
         == "{\"longUrl\":\"" + "https:\\/\\/developers.google.com\\/" + "\"}"
  {
    LongUrlKey();
    EscapeDevelopersURL();
  }

  lemma LongUrlKey()
    ensures EscapeString("longUrl") == "longUrl"
    ensures "{\"" + "longUrl" + "\":\"" == "{\"longUrl\":\""
  {
    assert forall i :: 0 <= i < |"longUrl"| ==> IsPlain("longUrl"[i]);
    EscapeStringOfPlain("longUrl");
  }
}
