/**
 * The shared helpers of the OAuth functions (functions/_utils.ts): the
 * signed-token codec `base64(JSON(payload)) + "." + base64(HMAC-SHA-256)`,
 * the Cookie header parser, the PKCE cookie reader, the base64url encoding
 * of section 5 of RFC 4648 behind the S256 code challenge, and the
 * parameters of the token request.
 *
 * HMAC-SHA-256, SHA-256, JSON.stringify and JSON.parse are parameters of
 * the model (a `Primitives` record); `Lawful` states what the model relies
 * on about them. base64, UTF-8 and the URI coding are modelled exactly.
 */
module Utils {
  import opened Wrappers
  import opened JsValues
  import JsStrings
  import Base64
  import Utf8
  import UriCoding
  import UrlParams

  /** The elements of a Uint8Array. */
  predicate IsBytes(b: seq<int>)
  {
    forall i :: 0 <= i < |b| ==> 0 <= b[i] < 256
  }

  /**
   * The platform functions the helpers call: WebCrypto's HMAC-SHA-256 sign
   * (key bytes, message bytes) and SHA-256 digest, JSON.stringify, and
   * JSON.parse (None for the SyntaxError it throws).
   */
  datatype Primitives = Primitives(
    hmacSha256: (seq<int>, seq<int>) -> seq<int>,
    sha256: seq<int> -> seq<int>,
    stringify: JsValue -> string,
    parse: string -> Option<JsValue>)

  /**
   * Both digests are 32 bytes long; JSON.parse reads back what
   * JSON.stringify wrote; and JSON.stringify of a value whose strings are
   * all Latin-1 is Latin-1 (it only adds ASCII punctuation and escapes).
   */
  ghost predicate Lawful(p: Primitives)
  {
    (forall key, msg :: IsBytes(p.hmacSha256(key, msg)) && |p.hmacSha256(key, msg)| == 32) &&
    (forall m :: IsBytes(p.sha256(m)) && |p.sha256(m)| == 32) &&
    (forall v :: IsJson(v) ==> p.parse(p.stringify(v)) == Some(v)) &&
    (forall v :: IsJson(v) && IsLatin1Value(v) ==> Base64.IsLatin1(p.stringify(v)))
  }

  /**
   * The configuration bindings the functions read (the D1 binding is the
   * store). OAUTH_REDIRECT_URI may be left unset (None).
   */
  datatype Env = Env(clientId: string, redirectUri: Option<string>, sessionSecret: string)

  /** `String(binding)`, as URLSearchParams.set converts its value: an unset binding is "undefined". */
  function BindingText(b: Option<string>): (r: string)
    ensures b.Some? ==> r == b.value
  {
    if b.Some? then b.value else "undefined"
  }

  /** `String.fromCharCode(b)` for each byte, in order: one Latin-1 character per byte. */
  function BinaryString(bytes: seq<int>): (s: string)
    requires IsBytes(bytes)
    ensures |s| == |bytes| && Base64.IsLatin1(s)
    ensures forall i :: 0 <= i < |s| ==> s[i] as int == bytes[i]
  {
    if |bytes| == 0 then "" else BinaryString(bytes[..|bytes| - 1]) + [bytes[|bytes| - 1] as char]
  }

  /** The loop `for (const b of bytes) bin += String.fromCharCode(b)`. */
  method BuildBinaryString(bytes: seq<int>) returns (bin: string)
    requires IsBytes(bytes)
    ensures bin == BinaryString(bytes)
  {
    bin := "";
    var i := 0;
    while i < |bytes|
      invariant 0 <= i <= |bytes|
      invariant bin == BinaryString(bytes[..i])
    {
      assert bytes[..i + 1][..i] == bytes[..i];
      bin := bin + [bytes[i] as char];
      i := i + 1;
    }
    assert bytes[..|bytes|] == bytes;
  }

  lemma EncodeEmpty(s: string)
    ensures |Utf8.Encode(s)| == 0 <==> s == ""
  {
  }

  /**
   * `hmac(value, secret)`: btoa of the HMAC-SHA-256 tag of the UTF-8 value
   * under the UTF-8 secret. Importing an empty raw HMAC key throws a
   * DataError, so an empty secret fails.
   */
  function Hmac(p: Primitives, value: string, secret: string): (r: Result<string, JsError>)
    requires Lawful(p)
    ensures r.Failure? <==> secret == ""
    ensures r.Failure? ==> r.error == DataError
    ensures r.Success? ==> |r.value| == 44 && '.' !in r.value
  {
    EncodeEmpty(secret);
    var key := Utf8.Encode(secret);
    if |key| == 0 then Failure(DataError)
    else
      var tag := BinaryString(p.hmacSha256(key, Utf8.Encode(value)));
      Base64.BtoaShape(tag);
      Base64.BtoaHasNoDot(tag);
      Success(Base64.Btoa(tag).value)
  }

  /**
   * `createSessionCookie(payload, secret)`: `body + "." + sig`. btoa throws
   * when the JSON text is not Latin-1, and hmac when the secret is empty.
   */
  function CreateSessionCookie(p: Primitives, payload: JsValue, secret: string): (r: Result<string, JsError>)
    requires Lawful(p)
    ensures r.Success? <==> Base64.IsLatin1(p.stringify(payload)) && secret != ""
    ensures !Base64.IsLatin1(p.stringify(payload)) ==> r == Failure(InvalidCharacterError)
    ensures Base64.IsLatin1(p.stringify(payload)) && secret == "" ==> r == Failure(DataError)
    ensures r.Success? ==> exists i :: 0 <= i < |r.value| && r.value[i] == '.'
  {
    match Base64.Btoa(p.stringify(payload))
    case None => Failure(InvalidCharacterError)
    case Some(body) =>
      match Hmac(p, body, secret)
      case Failure(e) => Failure(e)
      case Success(sig) =>
        assert (body + "." + sig)[|body|] == '.';
        Success(body + "." + sig)
  }

  /** A token cut at its last `.`: the body before it and the tag after it. */
  function SplitToken(token: string): (r: Option<(string, string)>)
    ensures r.None? <==> '.' !in token
    ensures r.Some? ==> token == r.value.0 + "." + r.value.1 && '.' !in r.value.1
  {
    match JsStrings.LastIndexOf(token, '.')
    case None => None
    case Some(idx) =>
      var body, tag := token[..idx], token[idx + 1..];
      assert token == body + "." + tag;
      assert forall j :: 0 <= j < |tag| ==> tag[j] == token[idx + 1 + j];
      Some((body, tag))
  }

  /** Joining a body and a dot-free tag and cutting again gives both back. */
  lemma SplitTokenJoin(body: string, tag: string)
    requires '.' !in tag
    ensures SplitToken(body + "." + tag) == Some((body, tag))
  {
    var token := body + "." + tag;
    JsStrings.LastIndexOfJoin(body, '.', tag);
    assert token[..|body|] == body;
    assert token[|body| + 1..] == tag;
  }

  /**
   * The checks after the split: the tag must equal hmac(body, secret); then
   * `JSON.parse(atob(body))`, whose exceptions are caught and give null.
   */
  function CheckSigned(p: Primitives, body: string, tag: string, secret: string): (r: Result<JsValue, JsError>)
    requires Lawful(p)
    ensures r.Failure? <==> secret == ""
    ensures r.Success? && Hmac(p, body, secret).value != tag ==> r.value == Null
  {
    match Hmac(p, body, secret)
    case Failure(e) => Failure(e)
    case Success(expected) =>
      if expected != tag then Success(Null)
      else match Base64.Atob(body)
        case None => Success(Null)
        case Some(text) =>
          match p.parse(text)
          case None => Success(Null)
          case Some(v) => Success(v)
  }

  /**
   * `verifySessionCookie(cookie, secret)`: null for a null or empty cookie
   * and for one without a `.`; otherwise the checks on the body and tag on
   * either side of the last `.`. It throws only when hmac does, for an
   * empty secret.
   */
  function VerifySessionCookie(p: Primitives, cookie: Option<string>, secret: string): (r: Result<JsValue, JsError>)
    requires Lawful(p)
    ensures cookie.None? || cookie.value == "" || '.' !in cookie.value ==> r == Success(Null)
    ensures r.Failure? ==> secret == "" && r.error == DataError
    ensures r.Success? && r.value != Null ==>
      cookie.Some? && SplitToken(cookie.value).Some? &&
      Hmac(p, SplitToken(cookie.value).value.0, secret) == Success(SplitToken(cookie.value).value.1)
  {
    if cookie.None? || cookie.value == "" then Success(Null)
    else match SplitToken(cookie.value)
      case None => Success(Null)
      case Some((body, tag)) => CheckSigned(p, body, tag, secret)
  }

  /** A cookie assembled from a body and a dot-free tag is checked on exactly those two parts. */
  lemma VerifyJoined(p: Primitives, body: string, tag: string, secret: string)
    requires Lawful(p)
    requires '.' !in tag
    ensures VerifySessionCookie(p, Some(body + "." + tag), secret) == CheckSigned(p, body, tag, secret)
  {
    SplitTokenJoin(body, tag);
  }

  /** A tag that is not hmac(body, secret) is refused, whatever the body holds. */
  lemma VerifyRejectsForgedTag(p: Primitives, body: string, tag: string, secret: string)
    requires Lawful(p)
    requires '.' !in tag && secret != ""
    requires Hmac(p, body, secret).value != tag
    ensures VerifySessionCookie(p, Some(body + "." + tag), secret) == Success(Null)
  {
    VerifyJoined(p, body, tag, secret);
  }

  /** The codec round trip: verifying a cookie that createSessionCookie issued returns its payload. */
  lemma SessionRoundTrip(p: Primitives, payload: JsValue, secret: string)
    requires Lawful(p) && IsJson(payload)
    requires CreateSessionCookie(p, payload, secret).Success?
    ensures VerifySessionCookie(p, Some(CreateSessionCookie(p, payload, secret).value), secret) == Success(payload)
  {
    var text := p.stringify(payload);
    var body := Base64.Btoa(text).value;
    var tag := Hmac(p, body, secret).value;
    assert CreateSessionCookie(p, payload, secret).value == body + "." + tag;
    VerifyJoined(p, body, tag, secret);
    Base64.AtobBtoa(text);
  }

  /** Every payload whose strings are Latin-1 can be issued under a non-empty secret. */
  lemma CreateSucceeds(p: Primitives, payload: JsValue, secret: string)
    requires Lawful(p) && IsJson(payload) && IsLatin1Value(payload) && secret != ""
    ensures CreateSessionCookie(p, payload, secret).Success?
  {
  }

  /** `s.replace(/a/g, b)` for single characters. */
  function ReplaceAll(s: string, a: char, b: char): (r: string)
    ensures |r| == |s|
    ensures forall i :: 0 <= i < |s| ==> r[i] == (if s[i] == a then b else s[i])
  {
    if |s| == 0 then "" else [if s[0] == a then b else s[0]] + ReplaceAll(s[1..], a, b)
  }

  /** `s.replace(/c+$/g, '')`: the whole run of `c` at the end is removed. */
  function StripTrailing(s: string, c: char): (r: string)
    ensures |r| <= |s| && r == s[..|r|]
    ensures r == "" || r[|r| - 1] != c
    ensures forall i :: |r| <= i < |s| ==> s[i] == c
  {
    if |s| > 0 && s[|s| - 1] == c then StripTrailing(s[..|s| - 1], c) else s
  }

  /** A character of the URL- and filename-safe alphabet of section 5 of RFC 4648. */
  predicate IsUrlSafeChar(c: char)
  {
    ('A' <= c <= 'Z') || ('a' <= c <= 'z') || ('0' <= c <= '9') || c == '-' || c == '_'
  }

  /** `base64url(bytes)`: btoa with `+` and `/` swapped for `-` and `_` and the padding dropped. */
  function Base64Url(bytes: seq<int>): (r: string)
    requires IsBytes(bytes)
    ensures '+' !in r && '/' !in r
    ensures r == "" || r[|r| - 1] != '='
  {
    var e := Base64.Btoa(BinaryString(bytes)).value;
    StripTrailing(ReplaceAll(ReplaceAll(e, '+', '-'), '/', '_'), '=')
  }

  /** base64url of 32 bytes is 43 characters of the URL-safe alphabet. */
  lemma Base64UrlOfDigest(bytes: seq<int>)
    requires IsBytes(bytes) && |bytes| == 32
    ensures |Base64Url(bytes)| == 43
    ensures forall i :: 0 <= i < 43 ==> IsUrlSafeChar(Base64Url(bytes)[i])
  {
    var bin := BinaryString(bytes);
    var e := Base64.Btoa(bin).value;
    var u := Base64.Unpadded(bin);
    Base64.UnpaddedLength(bin);
    assert |u| == 43;
    assert e == u + "=";
    var x := ReplaceAll(ReplaceAll(e, '+', '-'), '/', '_');
    assert x[43] == '=';
    assert x[42] != '=' by {
      assert Base64.IsAlphabetChar(u[42]);
    }
    StripOneEquals(x);
    forall i | 0 <= i < 43
      ensures IsUrlSafeChar(x[i])
    {
      assert Base64.IsAlphabetChar(e[i]);
    }
  }

  lemma StripOneEquals(x: string)
    requires |x| == 44 && x[43] == '=' && x[42] != '='
    ensures StripTrailing(x, '=') == x[..43]
  {
    assert StripTrailing(x, '=') == StripTrailing(x[..43], '=');
  }

  /**
   * `deriveCodeChallenge(verifier)`: base64url(SHA-256(UTF-8(verifier))),
   * the S256 method of section 4.2 of RFC 7636: always 43 URL-safe characters.
   */
  function DeriveCodeChallenge(p: Primitives, verifier: string): (r: string)
    requires Lawful(p)
    ensures |r| == 43 && forall i :: 0 <= i < |r| ==> IsUrlSafeChar(r[i])
  {
    var digest := p.sha256(Utf8.Encode(verifier));
    Base64UrlOfDigest(digest);
    Base64Url(digest)
  }

  /**
   * One `;`-separated part of the Cookie header: up to the first `=` the
   * trimmed name, after it the percent-decoded value (not trimmed); a part
   * with no `=` is a trimmed name with an empty value. decodeURIComponent
   * throws a URIError on a malformed value.
   */
  function ParseCookiePart(part: string): (r: Result<(string, string), JsError>)
    ensures '=' !in part ==> r == Success((JsStrings.Trim(part), ""))
    ensures r.Failure? ==> r.error == URIError
  {
    match JsStrings.IndexOf(part, '=')
    case None => Success((JsStrings.Trim(part), ""))
    case Some(idx) =>
      match UriCoding.DecodeUriComponent(part[idx + 1..])
      case None => Failure(URIError)
      case Some(value) => Success((JsStrings.Trim(part[..idx]), value))
  }

  /** A part `name=value` with no `=` in the name splits at that `=`. */
  lemma ParseCookiePartOf(name: string, value: string)
    requires '=' !in name
    ensures ParseCookiePart(name + "=" + value) ==
      match UriCoding.DecodeUriComponent(value)
      case None => Failure(URIError)
      case Some(v) => Success((JsStrings.Trim(name), v))
  {
    var part := name + "=" + value;
    JsStrings.IndexOfJoin(name, '=', value);
    assert part[..|name|] == name;
    assert part[|name| + 1..] == value;
  }

  /** `parts.map(...)`: every part parsed in order; the first exception escapes. */
  function ParseCookieParts(parts: seq<string>): (r: Result<seq<(string, string)>, JsError>)
    ensures r.Failure? ==> r.error == URIError
    ensures r.Success? <==> forall i :: 0 <= i < |parts| ==> ParseCookiePart(parts[i]).Success?
    ensures r.Success? ==> |r.value| == |parts| && forall i :: 0 <= i < |parts| ==> r.value[i] == ParseCookiePart(parts[i]).value
  {
    if |parts| == 0 then Success([])
    else match ParseCookiePart(parts[0])
      case Failure(e) => Failure(e)
      case Success(entry) =>
        match ParseCookieParts(parts[1..])
        case Failure(e) => Failure(e)
        case Success(rest) => Success([entry] + rest)
  }

  /** `.filter(([k]) => k)`: entries whose name is empty are dropped, the rest keep their order. */
  function NamedEntries(es: seq<(string, string)>): (r: seq<(string, string)>)
    ensures forall i :: 0 <= i < |r| ==> r[i].0 != ""
    ensures forall e :: e in r <==> e in es && e.0 != ""
  {
    if |es| == 0 then []
    else if es[0].0 == "" then NamedEntries(es[1..])
    else [es[0]] + NamedEntries(es[1..])
  }

  /** `Object.fromEntries(es)`: each entry defines its name in turn, so the later entry wins. */
  function FromEntries(es: seq<(string, string)>): (m: map<string, string>)
  {
    if |es| == 0 then map[] else FromEntries(es[..|es| - 1])[es[|es| - 1].0 := es[|es| - 1].1]
  }

  /** A name is defined exactly when some entry has it. */
  lemma {:induction false} FromEntriesDomain(es: seq<(string, string)>, name: string)
    ensures name in FromEntries(es) <==> exists i :: 0 <= i < |es| && es[i].0 == name
    decreases |es|
  {
    if |es| > 0 {
      var init := es[..|es| - 1];
      FromEntriesDomain(init, name);
      if es[|es| - 1].0 != name {
        if name in FromEntries(init) {
          var i :| 0 <= i < |init| && init[i].0 == name;
          assert es[i].0 == name;
        }
        if exists i :: 0 <= i < |es| && es[i].0 == name {
          var i :| 0 <= i < |es| && es[i].0 == name;
          assert init[i] == es[i];
        }
      }
    }
  }

  /** A repeated name takes the value of its last entry. */
  lemma {:induction false} FromEntriesLastWins(es: seq<(string, string)>, name: string, i: nat)
    requires i < |es| && es[i].0 == name
    requires forall j :: i < j < |es| ==> es[j].0 != name
    ensures name in FromEntries(es) && FromEntries(es)[name] == es[i].1
    decreases |es|
  {
    if i < |es| - 1 {
      var init := es[..|es| - 1];
      FromEntriesLastWins(init, name, i);
    }
  }

  /**
   * `parseCookies(req)`: the Cookie header (an empty string when absent)
   * split on `;`, each part parsed, unnamed entries dropped, and the rest
   * gathered with Object.fromEntries. A malformed percent-escape in any
   * value makes decodeURIComponent throw out of the whole call.
   */
  function ParseCookies(header: Option<string>): (r: Result<map<string, string>, JsError>)
    ensures r.Failure? ==> r.error == URIError
    ensures r.Success? ==> "" !in r.value
    ensures r.Success? <==> forall i :: 0 <= i < |CookieParts(header)| ==> ParseCookiePart(CookieParts(header)[i]).Success?
  {
    match ParseCookieParts(CookieParts(header))
    case Failure(e) => Failure(e)
    case Success(entries) =>
      var named := NamedEntries(entries);
      FromEntriesDomain(named, "");
      Success(FromEntries(named))
  }

  /** `(req.headers.get('cookie') || '').split(';')`. */
  function CookieParts(header: Option<string>): (parts: seq<string>)
    ensures |parts| >= 1
  {
    JsStrings.Split(if header.Some? then header.value else "", ';')
  }

  /** The cookie named `name` in a parsed header is the value of the last part that carries that name. */
  lemma ParsedCookieValue(header: Option<string>, entries: seq<(string, string)>, name: string, i: nat)
    requires ParseCookieParts(CookieParts(header)) == Success(entries)
    requires name != "" && i < |entries| && entries[i].0 == name
    requires forall j :: i < j < |entries| ==> entries[j].0 != name
    ensures ParseCookies(header).Success?
    ensures name in ParseCookies(header).value && ParseCookies(header).value[name] == entries[i].1
  {
    var named := NamedEntries(entries);
    var k := LastNamed(entries, name, i);
    FromEntriesLastWins(named, name, k);
  }

  /** Where the last entry with a non-empty name lands once unnamed entries are dropped. */
  lemma {:induction false} LastNamed(es: seq<(string, string)>, name: string, i: nat) returns (k: nat)
    requires name != "" && i < |es| && es[i].0 == name
    requires forall j :: i < j < |es| ==> es[j].0 != name
    ensures k < |NamedEntries(es)| && NamedEntries(es)[k] == es[i]
    ensures forall j :: k < j < |NamedEntries(es)| ==> NamedEntries(es)[j].0 != name
    decreases |es|
  {
    var tail := NamedEntries(es[1..]);
    if i == 0 {
      k := 0;
      assert NamedEntries(es) == [es[0]] + tail;
      forall j | 0 < j < |NamedEntries(es)|
        ensures NamedEntries(es)[j].0 != name
      {
        var e := tail[j - 1];
        assert e in NamedEntries(es[1..]);
        assert e in es[1..];
      }
    } else {
      var k' := LastNamed(es[1..], name, i - 1);
      if es[0].0 == "" {
        k := k';
      } else {
        k := k' + 1;
        assert NamedEntries(es) == [es[0]] + tail;
      }
    }
  }

  /** A part `name=encodeURIComponent(value)`, with a name that needs no trimming, parses to that pair. */
  lemma ParseEncodedPart(name: string, value: string)
    requires '=' !in name
    requires name == "" || (!JsStrings.IsJsWhitespace(name[0]) && !JsStrings.IsJsWhitespace(name[|name| - 1]))
    ensures ParseCookiePart(name + "=" + UriCoding.EncodeUriComponent(value)) == Success((name, value))
  {
    ParseCookiePartOf(name, UriCoding.EncodeUriComponent(value));
    UriCoding.DecodeEncode(value);
    JsStrings.TrimNoOp(name);
  }

  /** A header of one named part is a single cookie. */
  lemma ParseOnePart(header: string, name: string, value: string)
    requires ';' !in header && name != ""
    requires ParseCookiePart(header) == Success((name, value))
    ensures ParseCookies(Some(header)) == Success(map[name := value])
  {
    JsStrings.SplitNoSeparator(header, ';');
    assert CookieParts(Some(header)) == [header];
    var r := ParseCookieParts([header]);
    assert [header][0] == header;
    assert r.Success? && |r.value| == 1 && r.value[0] == (name, value);
    assert r.value == [(name, value)];
    assert NamedEntries([(name, value)]) == [(name, value)];
    assert FromEntries([(name, value)]) == map[name := value];
  }

  /**
   * The header a browser sends back for a single cookie set as
   * `name=encodeURIComponent(value)` parses to that one cookie.
   */
  lemma ParseSingleCookie(name: string, value: string)
    requires name != "" && '=' !in name && ';' !in name
    requires !JsStrings.IsJsWhitespace(name[0]) && !JsStrings.IsJsWhitespace(name[|name| - 1])
    ensures ParseCookies(Some(name + "=" + UriCoding.EncodeUriComponent(value))) == Success(map[name := value])
  {
    var enc := UriCoding.EncodeUriComponent(value);
    UriCoding.EncodedHasNoDelimiters(value);
    NoSeparatorInPart(name, enc);
    ParseEncodedPart(name, value);
    ParseOnePart(name + "=" + enc, name, value);
  }

  lemma NoSeparatorInPart(name: string, enc: string)
    requires ';' !in name && ';' !in enc
    ensures ';' !in name + "=" + enc
  {
    assert name + "=" + enc == name + ("=" + enc);
  }

  /** The two fields the PKCE cookie carries. */
  datatype Pkce = Pkce(state: string, codeVerifier: string)

  /** The signed payload `{ state, code_verifier }`. */
  function PkcePayload(state: string, codeVerifier: string): (r: JsValue)
    ensures IsJson(r)
    ensures Get(r, "state") == Str(state) && Get(r, "code_verifier") == Str(codeVerifier)
    ensures Base64.IsLatin1(state) && Base64.IsLatin1(codeVerifier) ==> IsLatin1Value(r)
  {
    assert Base64.IsLatin1("state") && Base64.IsLatin1("code_verifier");
    StringRecord(map["state" := state, "code_verifier" := codeVerifier])
  }

  /** `createPkceCookie({ state, code_verifier }, secret)`. */
  function CreatePkceCookie(p: Primitives, state: string, codeVerifier: string, secret: string): (r: Result<string, JsError>)
    requires Lawful(p)
    ensures Base64.IsLatin1(state) && Base64.IsLatin1(codeVerifier) ==> (r.Success? <==> secret != "")
    ensures Base64.IsLatin1(state) && Base64.IsLatin1(codeVerifier) && secret == "" ==> r == Failure(DataError)
  {
    CreateSessionCookie(p, PkcePayload(state, codeVerifier), secret)
  }

  /**
   * The fields readPkceCookie takes from a verified payload:
   * `String(decoded.state || '')` and `String(decoded.code_verifier || '')`,
   * both required to be non-empty.
   */
  function PkceFields(decoded: JsValue): (r: Option<Pkce>)
    ensures !Truthy(decoded) ==> r.None?
    ensures r.Some? ==> r.value.state != "" && r.value.codeVerifier != ""
    ensures r.Some? ==> r.value.state == FieldText(Get(decoded, "state")) && r.value.codeVerifier == FieldText(Get(decoded, "code_verifier"))
    ensures Truthy(decoded) && FieldText(Get(decoded, "state")) != "" && FieldText(Get(decoded, "code_verifier")) != "" ==>
      r == Some(Pkce(FieldText(Get(decoded, "state")), FieldText(Get(decoded, "code_verifier"))))
  {
    if !Truthy(decoded) then None
    else
      var state := FieldText(Get(decoded, "state"));
      var codeVerifier := FieldText(Get(decoded, "code_verifier"));
      if state == "" || codeVerifier == "" then None else Some(Pkce(state, codeVerifier))
  }

  /**
   * `readPkceCookie(req, secret)`: the `pkce` cookie (an empty one counts
   * as absent) verified and its two fields read. The exceptions of
   * parseCookies and of hmac escape.
   */
  function ReadPkceCookie(p: Primitives, header: Option<string>, secret: string): (r: Result<Option<Pkce>, JsError>)
    requires Lawful(p)
    ensures r.Success? && r.value.Some? ==> r.value.value.state != "" && r.value.value.codeVerifier != ""
    ensures ParseCookies(header).Success? && "pkce" !in ParseCookies(header).value ==> r == Success(None)
    ensures r.Success? && r.value.Some? ==>
      ParseCookies(header).Success? && "pkce" in ParseCookies(header).value &&
      var t := ParseCookies(header).value["pkce"];
      SplitToken(t).Some? && Hmac(p, SplitToken(t).value.0, secret) == Success(SplitToken(t).value.1) &&
      VerifySessionCookie(p, Some(t), secret).Success? &&
      PkceFields(VerifySessionCookie(p, Some(t), secret).value) == r.value
  {
    match ParseCookies(header)
    case Failure(e) => Failure(e)
    case Success(cookies) =>
      var raw := if "pkce" in cookies && cookies["pkce"] != "" then Some(cookies["pkce"]) else None;
      match VerifySessionCookie(p, raw, secret)
      case Failure(e) => Failure(e)
      case Success(decoded) => Success(PkceFields(decoded))
  }

  /** The fields of a `{ state, code_verifier }` payload read back as they were signed. */
  lemma PkceFieldsOfPayload(state: string, codeVerifier: string)
    requires state != "" && codeVerifier != ""
    ensures PkceFields(PkcePayload(state, codeVerifier)) == Some(Pkce(state, codeVerifier))
  {
    var payload := PkcePayload(state, codeVerifier);
    assert Truthy(payload);
    assert FieldText(Get(payload, "state")) == state;
    assert FieldText(Get(payload, "code_verifier")) == codeVerifier;
  }

  /**
   * The PKCE cookie login issues reads back, from the Cookie header the
   * browser returns, as the same state and verifier.
   */
  lemma PkceRoundTrip(p: Primitives, state: string, codeVerifier: string, secret: string)
    requires Lawful(p)
    requires state != "" && codeVerifier != "" && secret != ""
    requires Base64.IsLatin1(state) && Base64.IsLatin1(codeVerifier)
    ensures CreatePkceCookie(p, state, codeVerifier, secret).Success?
    ensures ReadPkceCookie(p, Some("pkce=" + UriCoding.EncodeUriComponent(CreatePkceCookie(p, state, codeVerifier, secret).value)), secret)
      == Success(Some(Pkce(state, codeVerifier)))
  {
    var token := PkceIssued(p, state, codeVerifier, secret);
    PkceFieldsOfPayload(state, codeVerifier);
    PkceHeaderParses(token);
    ReadPkceOf(p, "pkce=" + UriCoding.EncodeUriComponent(token), token, secret);
  }

  /** The issued PKCE token has a `.` and verifies to its payload. */
  lemma PkceIssued(p: Primitives, state: string, codeVerifier: string, secret: string) returns (token: string)
    requires Lawful(p)
    requires secret != "" && Base64.IsLatin1(state) && Base64.IsLatin1(codeVerifier)
    ensures CreatePkceCookie(p, state, codeVerifier, secret) == Success(token)
    ensures exists i :: 0 <= i < |token| && token[i] == '.'
    ensures VerifySessionCookie(p, Some(token), secret) == Success(PkcePayload(state, codeVerifier))
  {
    var payload := PkcePayload(state, codeVerifier);
    var created := CreateSessionCookie(p, payload, secret);
    token := created.value;
    SessionRoundTrip(p, payload, secret);
  }

  /** `pkce=` followed by a value is the name, `=` and the value. */
  lemma PkceHeader(enc: string)
    ensures "pkce=" + enc == "pkce" + "=" + enc
  {
  }

  /** The Cookie header `pkce=<encoded token>` holds exactly that token. */
  lemma PkceHeaderParses(token: string)
    ensures ParseCookies(Some("pkce=" + UriCoding.EncodeUriComponent(token))) == Success(map["pkce" := token])
  {
    var enc := UriCoding.EncodeUriComponent(token);
    assert "pkce=" + enc == "pkce" + "=" + enc;
    ParseSingleCookie("pkce", token);
  }

  /** readPkceCookie on a header whose `pkce` cookie is present and non-empty. */
  lemma ReadPkceOf(p: Primitives, header: string, token: string, secret: string)
    requires Lawful(p)
    requires ParseCookies(Some(header)).Success?
    requires "pkce" in ParseCookies(Some(header)).value && ParseCookies(Some(header)).value["pkce"] == token
    requires token != ""
    ensures ReadPkceCookie(p, Some(header), secret) ==
      match VerifySessionCookie(p, Some(token), secret)
      case Failure(e) => Failure(e)
      case Success(decoded) => Success(PkceFields(decoded))
  {
  }

  /**
   * The form `exchangeCodeForToken` posts (section 4.1.3 of RFC 6749 with
   * the `code_verifier` of section 4.5 of RFC 7636), built with five
   * successive `set` calls on an empty URLSearchParams for the given
   * redirect URI. All five names differ, so each call appends its pair.
   */
  function TokenRequestFor(code: string, codeVerifier: string, clientId: string, redirectUri: string): (r: seq<UrlParams.Pair>)
    ensures r == [("grant_type", "authorization_code"), ("code", code), ("redirect_uri", redirectUri),
                  ("client_id", clientId), ("code_verifier", codeVerifier)]
    ensures UrlParams.GetParam(r, "redirect_uri") == Some(redirectUri)
  {
    TokenNamesDistinct();
    var ps0: seq<UrlParams.Pair> := [];
    UrlParams.SetAbsent(ps0, "grant_type", "authorization_code");
    var ps1 := UrlParams.SetParam(ps0, "grant_type", "authorization_code");
    UrlParams.SetAbsent(ps1, "code", code);
    var ps2 := UrlParams.SetParam(ps1, "code", code);
    UrlParams.SetAbsent(ps2, "redirect_uri", redirectUri);
    var ps3 := UrlParams.SetParam(ps2, "redirect_uri", redirectUri);
    UrlParams.SetAbsent(ps3, "client_id", clientId);
    var ps4 := UrlParams.SetParam(ps3, "client_id", clientId);
    UrlParams.SetAbsent(ps4, "code_verifier", codeVerifier);
    var ps5 := UrlParams.SetParam(ps4, "code_verifier", codeVerifier);
    UrlParams.GetAfterSet(ps2, "redirect_uri", redirectUri, "redirect_uri");
    UrlParams.GetAfterSet(ps3, "client_id", clientId, "redirect_uri");
    UrlParams.GetAfterSet(ps4, "code_verifier", codeVerifier, "redirect_uri");
    FiveAppends(("grant_type", "authorization_code"), ("code", code), ("redirect_uri", redirectUri),
                ("client_id", clientId), ("code_verifier", codeVerifier));
    ps5
  }

  lemma FiveAppends<T>(a: T, b: T, c: T, d: T, e: T)
    ensures [] + [a] + [b] + [c] + [d] + [e] == [a, b, c, d, e]
  {
  }

  lemma TokenNamesDistinct()
    ensures "grant_type" != "code" && "grant_type" != "redirect_uri" && "grant_type" != "client_id" && "grant_type" != "code_verifier"
    ensures "code" != "redirect_uri" && "code" != "client_id" && "code" != "code_verifier"
    ensures "redirect_uri" != "client_id" && "redirect_uri" != "code_verifier" && "client_id" != "code_verifier"
  {
    assert |"grant_type"| == 10 && |"code"| == 4 && |"redirect_uri"| == 12 && |"client_id"| == 9 && |"code_verifier"| == 13;
  }

  /**
   * The form as `exchangeCodeForToken` builds it: `redirect_uri` is
   * OAUTH_REDIRECT_URI as it is, "undefined" when the binding is unset and
   * "" when it is empty, with no fallback.
   */
  function TokenRequestParams(code: string, codeVerifier: string, env: Env): (r: seq<UrlParams.Pair>)
    ensures UrlParams.GetParam(r, "redirect_uri") == Some(BindingText(env.redirectUri))
  {
    TokenRequestFor(code, codeVerifier, env.clientId, BindingText(env.redirectUri))
  }
}
