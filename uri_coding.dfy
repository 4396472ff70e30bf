/**
 * `encodeURIComponent` and `decodeURIComponent` (the Encode and Decode
 * abstract operations of ECMA-262, section 19.2.6), over UTF-8.
 */
module UriCoding {
  import opened Wrappers
  import JsStrings
  import Utf8

  /** The characters encodeURIComponent leaves as they are: letters, digits and `-_.!~*'()`. */
  predicate IsUnescaped(c: char)
  {
    ('A' <= c <= 'Z') || ('a' <= c <= 'z') || ('0' <= c <= '9')
    || c == '-' || c == '_' || c == '.' || c == '!' || c == '~' || c == '*' || c == '\'' || c == '(' || c == ')'
  }

  function UpperHexDigit(d: int): (c: char)
    requires 0 <= d < 16
    ensures ('0' <= c <= '9') || ('A' <= c <= 'F')
    ensures JsStrings.HexValue(c) == d
  {
    if d < 10 then ('0' as int + d) as char else ('A' as int + d - 10) as char
  }

  /** `%XY` with two upper-case hexadecimal digits for each byte. */
  function PercentEncode(bytes: seq<int>): (r: string)
    requires forall i :: 0 <= i < |bytes| ==> 0 <= bytes[i] < 256
    ensures |r| == 3 * |bytes|
    ensures forall i :: 0 <= i < |r| ==> r[i] == '%' || ('0' <= r[i] <= '9') || ('A' <= r[i] <= 'F')
  {
    if |bytes| == 0 then ""
    else ['%', UpperHexDigit(bytes[0] / 16), UpperHexDigit(bytes[0] % 16)] + PercentEncode(bytes[1..])
  }

  function EncodeChar(c: char): (r: string)
    ensures forall i :: 0 <= i < |r| ==> IsUnescaped(r[i]) || r[i] == '%' || ('A' <= r[i] <= 'F')
  {
    if IsUnescaped(c) then [c] else PercentEncode(Utf8.EncodeChar(c))
  }

  /** `encodeURIComponent(s)`; a string of scalar values never makes it throw. */
  function EncodeUriComponent(s: string): (r: string)
    ensures forall i :: 0 <= i < |r| ==> IsUnescaped(r[i]) || r[i] == '%' || ('A' <= r[i] <= 'F')
  {
    if |s| == 0 then "" else EncodeChar(s[0]) + EncodeUriComponent(s[1..])
  }

  predicate IsHexChar(c: char)
  {
    JsStrings.IsLowerHexDigit(c) || ('A' <= c <= 'F')
  }

  /** The byte of the escape `%XY` at the start of `s`, if there is one. */
  function EscapedOctet(s: string): (r: Option<int>)
    requires |s| >= 3
    ensures r.Some? ==> 0 <= r.value < 256
  {
    if s[0] == '%' && IsHexChar(s[1]) && IsHexChar(s[2])
    then Some(16 * JsStrings.HexValue(s[1]) + JsStrings.HexValue(s[2]))
    else None
  }

  /** The bytes of `k` consecutive escapes at the start of `s`. */
  function ReadOctets(s: string, k: nat): (r: Option<seq<int>>)
    requires 3 * k <= |s|
    ensures r.Some? ==> |r.value| == k && forall i :: 0 <= i < k ==> 0 <= r.value[i] < 256
  {
    if k == 0 then Some([])
    else match EscapedOctet(s)
      case None => None
      case Some(b) =>
        match ReadOctets(s[3..], k - 1)
        case None => None
        case Some(rest) => Some([b] + rest)
  }

  function Prepend(c: char, r: Option<string>): (o: Option<string>)
    ensures o.Some? <==> r.Some?
    ensures o.Some? ==> o.value == [c] + r.value
  {
    match r
    case None => None
    case Some(t) => Some([c] + t)
  }

  /**
   * `decodeURIComponent(s)`; None stands for the URIError it throws on a `%`
   * not followed by two hexadecimal digits or on escapes that are not UTF-8.
   */
  function DecodeUriComponent(s: string): (r: Option<string>)
    ensures r.Some? ==> |r.value| <= |s|
    decreases |s|
  {
    if |s| == 0 then Some("")
    else if s[0] != '%' then Prepend(s[0], DecodeUriComponent(s[1..]))
    else if |s| < 3 then None
    else match EscapedOctet(s)
      case None => None
      case Some(b) =>
        var n := Utf8.LeadingOnes(b);
        if n == 0 then Prepend(b as char, DecodeUriComponent(s[3..]))
        else if n == 1 || n > 4 || |s| < 3 * n then None
        else match ReadOctets(s, n)
          case None => None
          case Some(octets) =>
            match Utf8.DecodeSequence(octets)
            case None => None
            case Some(c) => Prepend(c, DecodeUriComponent(s[3 * n..]))
  }

  /** A string with no `%` decodes to itself. */
  lemma {:induction false} DecodeWithoutPercent(s: string)
    requires '%' !in s
    ensures DecodeUriComponent(s) == Some(s)
  {
    if |s| > 0 {
      DecodeWithoutPercent(s[1..]);
      assert s == [s[0]] + s[1..];
    }
  }

  lemma ReadPercentEncoded(bytes: seq<int>, rest: string)
    requires forall i :: 0 <= i < |bytes| ==> 0 <= bytes[i] < 256
    ensures ReadOctets(PercentEncode(bytes) + rest, |bytes|) == Some(bytes)
    decreases |bytes|
  {
    if |bytes| > 0 {
      var b := bytes[0];
      var s := PercentEncode(bytes) + rest;
      assert s[3..] == PercentEncode(bytes[1..]) + rest;
      assert EscapedOctet(s) == Some(b);
      ReadPercentEncoded(bytes[1..], rest);
      assert bytes == [b] + bytes[1..];
    }
  }

  /** One encoded character decodes to itself, whatever follows it. */
  lemma DecodeEncodedChar(c: char, rest: string)
    ensures DecodeUriComponent(EncodeChar(c) + rest) == Prepend(c, DecodeUriComponent(rest))
  {
    var s := EncodeChar(c) + rest;
    if !IsUnescaped(c) {
      var bytes := Utf8.EncodeChar(c);
      assert s[3 * |bytes|..] == rest;
      ReadPercentEncoded(bytes, rest);
      if c as int >= 0x80 {
        Utf8.DecodeEncodeChar(c);
      } else {
        assert s[3..] == rest;
      }
    }
  }

  /** decodeURIComponent inverts encodeURIComponent on every string. */
  lemma {:induction false} DecodeEncode(s: string)
    ensures DecodeUriComponent(EncodeUriComponent(s)) == Some(s)
  {
    if |s| > 0 {
      DecodeEncode(s[1..]);
      DecodeEncodedChar(s[0], EncodeUriComponent(s[1..]));
      assert s == [s[0]] + s[1..];
    }
  }

  /** encodeURIComponent escapes the cookie delimiters `;` and `=`, and white space. */
  lemma EncodedHasNoDelimiters(s: string)
    ensures ';' !in EncodeUriComponent(s) && '=' !in EncodeUriComponent(s)
    ensures forall i :: 0 <= i < |EncodeUriComponent(s)| ==> !JsStrings.IsJsWhitespace(EncodeUriComponent(s)[i])
  {
  }
}
