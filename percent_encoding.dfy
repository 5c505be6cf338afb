/**
  `String.URLEncodedString`: percent-encoding with a custom allowed set that is the
  complement of the eighteen characters `:/?#[]@!$&'()*+,;=`. Foundation ignores allowed
  characters outside 7-bit ASCII, so a character is encoded when it is one of the eighteen
  or is not ASCII. An encoded character becomes one `%XX` triplet, with upper-case hex,
  per byte of its UTF-8 encoding; every other character, `%` and ASCII white space
  included, is copied unchanged. Characters are Unicode scalar values.
 */
module PercentEncoding {
  import opened Wrappers

  const UPPER_HEX: string := "0123456789ABCDEF"

  predicate IsAscii(c: char) {
    (c as int) < 0x80
  }

  /** The characters that are not in the allowed set. */
  predicate IsReserved(c: char)
    ensures IsReserved(c) ==> IsAscii(c) && c != '%' && !IsUpperHexDigit(c)
  {
    || c == ':' || c == '/' || c == '?' || c == '#' || c == '[' || c == ']'
    || c == '@' || c == '!' || c == '$' || c == '&' || c == '\'' || c == '('
    || c == ')' || c == '*' || c == '+' || c == ',' || c == ';' || c == '='
  }

  /** Whether Foundation percent-encodes `c` under this allowed set. */
  predicate NeedsEncoding(c: char) {
    IsReserved(c) || !IsAscii(c)
  }

  predicate NothingToEncode(s: string) {
    forall i :: 0 <= i < |s| ==> !NeedsEncoding(s[i])
  }

  lemma NothingToEncodeConcat(a: string, b: string)
    requires NothingToEncode(a) && NothingToEncode(b)
    ensures NothingToEncode(a + b)
  {
    assert forall i :: |a| <= i < |a + b| ==> (a + b)[i] == b[i - |a|];
  }

  /**
    Only upper-case digits: `PercentByte` writes upper case, and the reader below is
    its inverse, not a general percent-decoder.
   */
  predicate IsUpperHexDigit(h: char) {
    ('0' <= h <= '9') || ('A' <= h <= 'F')
  }

  function HexDigit(d: nat): (h: char)
    requires d < 16
    ensures IsUpperHexDigit(h) && !NeedsEncoding(h) && h != '%'
  {
    UPPER_HEX[d]
  }

  function HexValue(h: char): (d: nat)
    requires IsUpperHexDigit(h)
    ensures d < 16
  {
    if '0' <= h <= '9' then h as int - '0' as int else h as int - 'A' as int + 10
  }

  lemma HexValueOfDigit(d: nat)
    requires d < 16
    ensures HexValue(HexDigit(d)) == d
  {
  }

  predicate IsByteSeq(bs: seq<nat>) {
    forall i :: 0 <= i < |bs| ==> bs[i] < 256
  }

  predicate IsContinuation(b: nat) {
    0x80 <= b < 0xC0
  }

  /** How many bytes a UTF-8 sequence has, judged by its first byte; 0 for a byte that cannot start one. */
  function Utf8Length(b: nat): nat {
    if b < 0x80 then 1
    else if 0xC0 <= b < 0xE0 then 2
    else if 0xE0 <= b < 0xF0 then 3
    else if 0xF0 <= b < 0xF8 then 4
    else 0
  }

  /** The UTF-8 encoding of a Unicode scalar value (section 3 of RFC 3629). */
  function Utf8(c: char): (bs: seq<nat>)
    ensures 1 <= |bs| <= 4 && IsByteSeq(bs)
    ensures IsAscii(c) <==> |bs| == 1
    ensures IsAscii(c) ==> bs == [c as int]
    ensures Utf8Length(bs[0]) == |bs|
    ensures forall i :: 1 <= i < |bs| ==> IsContinuation(bs[i])
  {
    var n := c as int;
    if n < 0x80 then [n]
    else if n < 0x800 then [0xC0 + n / 64, 0x80 + n % 64]
    else if n < 0x10000 then [0xE0 + (n / 64) / 64, 0x80 + (n / 64) % 64, 0x80 + n % 64]
    else [0xF0 + ((n / 64) / 64) / 64, 0x80 + ((n / 64) / 64) % 64, 0x80 + (n / 64) % 64, 0x80 + n % 64]
  }

  function ScalarOf(v: int): Option<char> {
    if 0 <= v < 0xD800 || 0xE000 <= v < 0x110000 then Some(v as char) else None
  }

  /** Decodes one complete UTF-8 sequence; `None` for anything else. */
  function Utf8Decode(bs: seq<nat>): Option<char> {
    if |bs| == 1 && bs[0] < 0x80 then Some(bs[0] as char)
    else if |bs| == 2 && 0xC0 <= bs[0] < 0xE0 && IsContinuation(bs[1]) then
      ScalarOf((bs[0] - 0xC0) * 64 + (bs[1] - 0x80))
    else if |bs| == 3 && 0xE0 <= bs[0] < 0xF0 && IsContinuation(bs[1]) && IsContinuation(bs[2]) then
      ScalarOf(((bs[0] - 0xE0) * 64 + (bs[1] - 0x80)) * 64 + (bs[2] - 0x80))
    else if |bs| == 4 && 0xF0 <= bs[0] < 0xF8 && IsContinuation(bs[1]) && IsContinuation(bs[2]) && IsContinuation(bs[3]) then
      ScalarOf((((bs[0] - 0xF0) * 64 + (bs[1] - 0x80)) * 64 + (bs[2] - 0x80)) * 64 + (bs[3] - 0x80))
    else None
  }

  /** Decoding the UTF-8 encoding of a character gives the character back. */
  lemma Utf8RoundTrip(c: char)
    ensures Utf8Decode(Utf8(c)) == Some(c)
  {
    var n := c as int;
    if n < 0x80 {
    } else if n < 0x800 {
      assert (n / 64) * 64 + n % 64 == n;
    } else if n < 0x10000 {
      var q := n / 64;
      assert (q / 64) * 64 + q % 64 == q;
      assert ((q / 64) * 64 + q % 64) * 64 + n % 64 == n;
    } else {
      var q := n / 64;
      var p := q / 64;
      assert (p / 64) * 64 + p % 64 == p;
      assert (((p / 64) * 64 + p % 64) * 64 + q % 64) * 64 + n % 64 == n;
    }
  }

  /** `%` followed by the two upper-case hex digits of a byte. */
  function PercentByte(b: nat): (t: string)
    requires b < 256
    ensures |t| == 3 && t[0] == '%'
    ensures IsUpperHexDigit(t[1]) && IsUpperHexDigit(t[2])
    ensures HexValue(t[1]) * 16 + HexValue(t[2]) == b
    ensures NothingToEncode(t)
  {
    HexValueOfDigit(b / 16);
    HexValueOfDigit(b % 16);
    ['%', HexDigit(b / 16), HexDigit(b % 16)]
  }

  /** One triplet per byte. */
  function PercentBytes(bs: seq<nat>): (t: string)
    requires IsByteSeq(bs)
    ensures |t| == 3 * |bs|
    ensures NothingToEncode(t)
  {
    if bs == [] then []
    else
      var head, tail := PercentByte(bs[0]), PercentBytes(bs[1..]);
      NothingToEncodeConcat(head, tail);
      head + tail
  }

  /** What one character of the key turns into. */
  function EncodeChar(c: char): (t: string)
    ensures NothingToEncode(t)
    ensures NeedsEncoding(c) ==> t == PercentBytes(Utf8(c))
    ensures !NeedsEncoding(c) ==> t == [c]
  {
    if NeedsEncoding(c) then PercentBytes(Utf8(c)) else [c]
  }

  /** The escaped form of a whole string: nothing in it needs encoding, and it is never shorter. */
  function Escape(s: string): (r: string)
    ensures NothingToEncode(r)
    ensures |r| >= |s|
  {
    if s == [] then []
    else
      var head, tail := EncodeChar(s[0]), Escape(s[1..]);
      NothingToEncodeConcat(head, tail);
      head + tail
  }

  /** Escaping works character by character: it distributes over concatenation. */
  lemma {:induction false} EscapeConcat(a: string, b: string)
    ensures Escape(a + b) == Escape(a) + Escape(b)
  {
    if a == [] {
      assert a + b == b;
    } else {
      assert (a + b)[0] == a[0];
      assert (a + b)[1..] == a[1..] + b;
      EscapeConcat(a[1..], b);
    }
  }

  /** A single character: reserved ones become one triplet, other ASCII ones stay, non-ASCII ones become a triplet per UTF-8 byte. */
  lemma EscapeSingle(c: char)
    ensures IsReserved(c) ==> Escape([c]) == PercentByte(c as int)
    ensures !NeedsEncoding(c) ==> Escape([c]) == [c]
    ensures !IsAscii(c) ==> Escape([c]) == PercentBytes(Utf8(c)) && 6 <= |Escape([c])| <= 12
  {
    assert [c][1..] == [];
    if IsReserved(c) {
      var bs := Utf8(c);
      assert bs == [c as int];
      assert bs[1..] == [];
    }
  }

  /** Number of characters that are copied. */
  function KeptCount(s: string): nat {
    if s == [] then 0 else (if NeedsEncoding(s[0]) then 0 else 1) + KeptCount(s[1..])
  }

  /** Number of UTF-8 bytes that are percent-encoded. */
  function EncodedByteCount(s: string): nat {
    if s == [] then 0 else (if NeedsEncoding(s[0]) then |Utf8(s[0])| else 0) + EncodedByteCount(s[1..])
  }

  /** Number of reserved characters in `s`. */
  function CountReserved(s: string): nat {
    if s == [] then 0 else (if IsReserved(s[0]) then 1 else 0) + CountReserved(s[1..])
  }

  predicate IsAsciiString(s: string) {
    forall i :: 0 <= i < |s| ==> IsAscii(s[i])
  }

  /** Each copied character takes one place, each encoded byte three. */
  lemma {:induction false} EscapeLength(s: string)
    ensures |Escape(s)| == KeptCount(s) + 3 * EncodedByteCount(s)
  {
    if s != [] {
      EscapeLength(s[1..]);
    }
  }

  /** For an ASCII key: two extra characters per reserved character. */
  lemma {:induction false} EscapeLengthAscii(s: string)
    requires IsAsciiString(s)
    ensures |Escape(s)| == |s| + 2 * CountReserved(s)
  {
    if s != [] {
      assert IsAsciiString(s[1..]) by {
        assert forall i :: 0 <= i < |s[1..]| ==> s[1..][i] == s[i + 1];
      }
      EscapeLengthAscii(s[1..]);
      assert IsAscii(s[0]);
    }
  }

  /** A string with nothing to encode is left as it is. */
  lemma {:induction false} EscapeOfUnreserved(s: string)
    requires NothingToEncode(s)
    ensures Escape(s) == s
  {
    if s != [] {
      assert !NeedsEncoding(s[0]);
      assert NothingToEncode(s[1..]) by {
        assert forall i :: 0 <= i < |s[1..]| ==> s[1..][i] == s[i + 1];
      }
      EscapeOfUnreserved(s[1..]);
      assert s == [s[0]] + s[1..];
    }
  }

  /** Escaping leaves a string unchanged exactly when it has no reserved and no non-ASCII character. */
  lemma EscapeFixedPoint(s: string)
    ensures Escape(s) == s <==> NothingToEncode(s)
  {
    if NothingToEncode(s) {
      EscapeOfUnreserved(s);
    }
  }

  /** Escaping an already escaped string changes nothing. */
  lemma EscapeIdempotent(s: string)
    ensures Escape(Escape(s)) == Escape(s)
  {
    EscapeOfUnreserved(Escape(s));
  }

  /** `%` is allowed, so an escaped key and the key it came from can collide. */
  lemma EscapeIsNotInjective()
    ensures Escape("=") == Escape("%3D") == "%3D"
  {
    EscapeSingle('=');
    assert Escape("%3D") == "%3D" by {
      EscapeOfUnreserved("%3D");
    }
  }

  /** A key with a single reserved character between two parts that need no encoding. */
  lemma EscapeOneReserved(a: string, c: char, b: string)
    requires NothingToEncode(a) && IsReserved(c) && NothingToEncode(b)
    ensures Escape(a + [c] + b) == a + PercentByte(c as int) + b
  {
    EscapeConcat(a + [c], b);
    EscapeConcat(a, [c]);
    EscapeOfUnreserved(a);
    EscapeOfUnreserved(b);
    EscapeSingle(c);
  }

  /** The key from the escaping test: only the `=` is touched. */
  lemma EscapeFooBar()
    ensures Escape("foo=bar") == "foo%3Dbar"
  {
    assert "foo=bar" == "foo" + ['='] + "bar";
    FooAndBarNeedNoEncoding();
    EscapeOneReserved("foo", '=', "bar");
    PercentByteOfEquals();
  }

  lemma FooAndBarNeedNoEncoding()
    ensures NothingToEncode("foo") && NothingToEncode("bar")
  {
  }

  lemma PercentByteOfEquals()
    ensures PercentByte('=' as int) == "%3D"
  {
  }

  /** ASCII white space is allowed and is passed through, not encoded. */
  /** Space, tab, line feed, vertical tab, form feed and carriage return. */
  predicate IsAsciiWhiteSpace(c: char) {
    c == ' ' || c == '\t' || c == '\n' || c == '\r' || c as int == 0x0B || c as int == 0x0C
  }

  /** ASCII white space is allowed and is passed through, not encoded. */
  lemma EscapeKeepsSpace()
    ensures Escape("a b") == "a b"
    ensures forall c :: IsAsciiWhiteSpace(c) ==> Escape([c]) == [c]
  {
    EscapeOfUnreserved("a b");
    forall c | IsAsciiWhiteSpace(c) ensures Escape([c]) == [c] {
      EscapeSingle(c);
    }
  }

  /** A non-ASCII character is written as its UTF-8 bytes: `é` (U+00E9) becomes `%C3%A9`. */
  lemma EscapeNonAscii()
    ensures Escape("é") == "%C3%A9"
  {
    EscapeSingle('é');
    var bs := Utf8('é');
    assert bs == [0xC3, 0xA9];
    assert bs[1..] == [0xA9] && bs[1..][1..] == [];
    assert PercentByte(0xC3) == "%C3";
    assert PercentByte(0xA9) == "%A9";
  }

  /** Reads `k` triplets from the start of `t` as bytes. */
  function ReadBytes(t: string, k: nat): (r: Option<seq<nat>>)
    ensures r.Some? ==> |r.value| == k && IsByteSeq(r.value) && 3 * k <= |t|
  {
    if k == 0 then Some([])
    else if |t| >= 3 && t[0] == '%' && IsUpperHexDigit(t[1]) && IsUpperHexDigit(t[2]) then
      match ReadBytes(t[3..], k - 1)
      case None => None
      case Some(bs) => Some([HexValue(t[1]) * 16 + HexValue(t[2])] + bs)
    else None
  }

  /**
    Decodes the encoded character at the start of `t`, if there is one: triplets that
    spell the UTF-8 encoding of a character `Escape` would have encoded. Gives the
    character and the number of characters of `t` it takes.
   */
  function DecodeCharAt(t: string): (r: Option<(char, nat)>)
    ensures r.Some? ==> 3 <= r.value.1 <= |t|
  {
    if |t| < 3 || t[0] != '%' || !IsUpperHexDigit(t[1]) || !IsUpperHexDigit(t[2]) then None
    else
      var n := Utf8Length(HexValue(t[1]) * 16 + HexValue(t[2]));
      if n == 0 then None
      else match ReadBytes(t, n)
        case None => None
        case Some(bs) =>
          match Utf8Decode(bs)
          case None => None
          case Some(c) => if NeedsEncoding(c) then Some((c, 3 * n)) else None
  }

  /** Decoding of what `Escape` produces, the inverse used to recover a key. */
  function Unescape(t: string): string
    decreases |t|
  {
    if t == [] then []
    else match DecodeCharAt(t)
      case Some((c, len)) => [c] + Unescape(t[len..])
      case None => [t[0]] + Unescape(t[1..])
  }

  /** `t` starts with the triplet of byte `b`, followed by `x`. */
  lemma ReadOneByte(b: nat, x: string, k: nat)
    requires b < 256 && k >= 1
    ensures ReadBytes(PercentByte(b) + x, k) ==
      match ReadBytes(x, k - 1) case None => None case Some(bs) => Some([b] + bs)
  {
    var t := PercentByte(b) + x;
    assert t[0] == '%' && t[1] == PercentByte(b)[1] && t[2] == PercentByte(b)[2];
    assert t[3..] == x;
  }

  lemma {:induction false} ReadPercentBytes(bs: seq<nat>, rest: string)
    requires IsByteSeq(bs)
    ensures ReadBytes(PercentBytes(bs) + rest, |bs|) == Some(bs)
  {
    if bs != [] {
      var x := PercentBytes(bs[1..]) + rest;
      assert PercentBytes(bs) == PercentByte(bs[0]) + PercentBytes(bs[1..]);
      assert PercentBytes(bs) + rest == PercentByte(bs[0]) + x;
      ReadPercentBytes(bs[1..], rest);
      ReadOneByte(bs[0], x, |bs|);
      assert [bs[0]] + bs[1..] == bs;
    }
  }

  /** The text written for `bs` starts with the triplet of its first byte. */
  lemma FirstTriplet(bs: seq<nat>, rest: string)
    requires IsByteSeq(bs) && |bs| >= 1
    ensures var t := PercentBytes(bs) + rest;
      |t| >= 3 && t[0] == '%' && IsUpperHexDigit(t[1]) && IsUpperHexDigit(t[2])
      && HexValue(t[1]) * 16 + HexValue(t[2]) == bs[0]
  {
    var p := PercentByte(bs[0]);
    assert PercentBytes(bs) + rest == p + (PercentBytes(bs[1..]) + rest);
  }

  lemma DecodeEncodedChar(c: char, rest: string)
    requires NeedsEncoding(c)
    ensures DecodeCharAt(EncodeChar(c) + rest) == Some((c, |EncodeChar(c)|))
  {
    var bs := Utf8(c);
    FirstTriplet(bs, rest);
    ReadPercentBytes(bs, rest);
    Utf8RoundTrip(c);
  }

  lemma UnescapePlain(c: char, rest: string)
    requires c != '%'
    ensures Unescape([c] + rest) == [c] + Unescape(rest)
  {
    assert ([c] + rest)[0] == c;
    assert ([c] + rest)[1..] == rest;
  }

  lemma UnescapeEncoded(c: char, rest: string)
    requires NeedsEncoding(c)
    ensures Unescape(EncodeChar(c) + rest) == [c] + Unescape(rest)
  {
    DecodeEncodedChar(c, rest);
    var t := EncodeChar(c) + rest;
    assert t[|EncodeChar(c)|..] == rest;
  }

  /** A key without `%`, ASCII or not, is recovered from its escaped form. */
  lemma {:induction false} UnescapeEscape(s: string)
    requires '%' !in s
    ensures Unescape(Escape(s)) == s
  {
    if s != [] {
      assert '%' !in s[1..] by {
        assert forall i :: 0 <= i < |s[1..]| ==> s[1..][i] == s[i + 1];
      }
      UnescapeEscape(s[1..]);
      if NeedsEncoding(s[0]) {
        UnescapeEncoded(s[0], Escape(s[1..]));
      } else {
        UnescapePlain(s[0], Escape(s[1..]));
      }
      assert s == [s[0]] + s[1..];
    }
  }
}
