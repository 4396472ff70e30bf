/**
 * `GET /api/oauth/login` (functions/api/oauth/login.ts): a fresh state and
 * code verifier, the S256 challenge, the Lichess authorization URL built
 * with URLSearchParams, and the signed short-lived `pkce` cookie.
 *
 * crypto.randomUUID and crypto.getRandomValues are parameters of the
 * handler: `state` and the 32 `random` bytes.
 */
module Login {
  import opened Wrappers
  import opened JsValues
  import JsStrings
  import Base64
  import UriCoding
  import UrlParams
  import Utils
  import Http

  /** `n.toString(16)`: lower-case hexadecimal digits without leading zeros. */
  function HexString(n: nat): (r: string)
    ensures |r| >= 1 && forall i :: 0 <= i < |r| ==> JsStrings.IsLowerHexDigit(r[i])
    ensures r[0] == '0' <==> n == 0
    ensures |r| == 1 <==> n < 16
  {
    if n < 16 then [JsStrings.HexDigit(n)]
    else HexString(n / 16) + [JsStrings.HexDigit(n % 16)]
  }

  /** `s.slice(-k)`: the last `k` characters, or all of `s` when it is shorter. */
  function SliceFromEnd(s: string, k: nat): (r: string)
    ensures |r| == if |s| < k then |s| else k
    ensures r == s[|s| - |r|..]
  {
    if |s| <= k then s else s[|s| - k..]
  }

  /**
   * `('0' + (b & 0xff).toString(16)).slice(-2)` for one element of a
   * Uint8Array, on which `& 0xff` changes nothing.
   */
  function HexByte(b: int): string
    requires 0 <= b < 256
  {
    SliceFromEnd("0" + HexString(b), 2)
  }

  /** A byte is written as exactly two hexadecimal digits, high nibble first. */
  lemma HexByteDigits(b: int)
    requires 0 <= b < 256
    ensures HexByte(b) == [JsStrings.HexDigit(b / 16), JsStrings.HexDigit(b % 16)]
  {
    if b < 16 {
      assert HexString(b) == [JsStrings.HexDigit(b)];
      assert "0" + HexString(b) == [JsStrings.HexDigit(0), JsStrings.HexDigit(b % 16)];
    } else {
      assert HexString(b / 16) == [JsStrings.HexDigit(b / 16)];
      var three := "0" + HexString(b);
      assert three == ['0', JsStrings.HexDigit(b / 16), JsStrings.HexDigit(b % 16)];
    }
  }

  /** The code verifier: each random byte as two hexadecimal digits, joined with no separator. */
  function CodeVerifier(random: seq<int>): (r: string)
    requires Utils.IsBytes(random)
    ensures |r| == 2 * |random|
    ensures forall i :: 0 <= i < |r| ==> JsStrings.IsLowerHexDigit(r[i])
  {
    if |random| == 0 then ""
    else
      HexByteDigits(random[0]);
      HexByte(random[0]) + CodeVerifier(random[1..])
  }

  /** Byte i of the random input is written at positions 2i and 2i + 1, high nibble first. */
  lemma {:induction false} CodeVerifierSpells(random: seq<int>)
    requires Utils.IsBytes(random)
    ensures var r := CodeVerifier(random);
      forall i :: 0 <= i < |random| ==>
        r[2 * i] == JsStrings.HexDigit(random[i] / 16) && r[2 * i + 1] == JsStrings.HexDigit(random[i] % 16)
  {
    if |random| > 0 {
      var r := CodeVerifier(random);
      var rest := CodeVerifier(random[1..]);
      CodeVerifierSpells(random[1..]);
      HexByteDigits(random[0]);
      assert r == HexByte(random[0]) + rest;
      forall i | 1 <= i < |random|
        ensures r[2 * i] == JsStrings.HexDigit(random[i] / 16) && r[2 * i + 1] == JsStrings.HexDigit(random[i] % 16)
      {
        assert random[1..][i - 1] == random[i];
        assert r[2 * i] == rest[2 * (i - 1)] && r[2 * i + 1] == rest[2 * (i - 1) + 1];
      }
    }
  }

  /** Two hexadecimal digits per byte, read back: the inverse of CodeVerifier. */
  function HexBytes(s: string): (r: seq<int>)
    requires |s| % 2 == 0 && forall i :: 0 <= i < |s| ==> JsStrings.IsLowerHexDigit(s[i])
    ensures |r| == |s| / 2
  {
    if |s| == 0 then []
    else [JsStrings.HexValue(s[0]) * 16 + JsStrings.HexValue(s[1])] + HexBytes(s[2..])
  }

  /** The verifier determines the random bytes it was made from. */
  lemma {:induction false} CodeVerifierDecodes(random: seq<int>)
    requires Utils.IsBytes(random)
    ensures HexBytes(CodeVerifier(random)) == random
  {
    if |random| > 0 {
      var b, rest := random[0], random[1..];
      var w := CodeVerifier(rest);
      CodeVerifierDecodes(rest);
      HexByteDigits(b);
      assert CodeVerifier(random) == HexByte(b) + w;
      HexBytesCons(b, w);
      assert random == [b] + rest;
    }
  }

  /** Reading back one byte written as two digits in front of a well-formed tail. */
  lemma HexBytesCons(b: int, w: string)
    requires 0 <= b < 256
    requires |w| % 2 == 0 && forall i :: 0 <= i < |w| ==> JsStrings.IsLowerHexDigit(w[i])
    ensures var v := [JsStrings.HexDigit(b / 16), JsStrings.HexDigit(b % 16)] + w;
      |v| % 2 == 0 && (forall i :: 0 <= i < |v| ==> JsStrings.IsLowerHexDigit(v[i])) &&
      HexBytes(v) == [b] + HexBytes(w)
  {
    var v := [JsStrings.HexDigit(b / 16), JsStrings.HexDigit(b % 16)] + w;
    assert v[2..] == w;
    JsStrings.HexValueOfDigit(b / 16);
    JsStrings.HexValueOfDigit(b % 16);
  }

  /** The characters section 4.1 of RFC 7636 allows in a code verifier: ALPHA / DIGIT / "-" / "." / "_" / "~". */
  predicate IsUnreservedChar(c: char)
  {
    ('A' <= c <= 'Z') || ('a' <= c <= 'z') || ('0' <= c <= '9') || c == '-' || c == '.' || c == '_' || c == '~'
  }

  /** A code verifier as section 4.1 of RFC 7636 requires: 43 to 128 unreserved characters. */
  predicate IsValidCodeVerifier(s: string)
  {
    43 <= |s| <= 128 && forall i :: 0 <= i < |s| ==> IsUnreservedChar(s[i])
  }

  /** The 32 random bytes give a 64-character verifier that meets RFC 7636 and is Latin-1. */
  lemma CodeVerifierValid(random: seq<int>)
    requires Utils.IsBytes(random) && |random| == 32
    ensures IsValidCodeVerifier(CodeVerifier(random))
    ensures Base64.IsLatin1(CodeVerifier(random))
  {
    CodeVerifierDecodes(random);
  }

  /** The textual form of crypto.randomUUID: 36 characters, lower-case hex digits and dashes at 8, 13, 18 and 23. */
  predicate IsUuid(s: string)
  {
    |s| == 36 &&
    forall i :: 0 <= i < 36 ==>
      if i == 8 || i == 13 || i == 18 || i == 23 then s[i] == '-' else JsStrings.IsLowerHexDigit(s[i])
  }

  /** A UUID is a non-empty Latin-1 string. */
  lemma UuidIsLatin1(s: string)
    requires IsUuid(s)
    ensures s != "" && Base64.IsLatin1(s)
  {
    forall i | 0 <= i < |s|
      ensures s[i] as int < 256
    {
      if !(i == 8 || i == 13 || i == 18 || i == 23) {
        assert JsStrings.IsLowerHexDigit(s[i]);
      }
    }
  }

  /** The callback path the redirect URI falls back to. */
  const CallbackPath := "/api/oauth/callback"

  /** `env.OAUTH_REDIRECT_URI || base + '/api/oauth/callback'`: an unset or empty binding falls back. */
  function RedirectUri(env: Utils.Env, base: string): (r: string)
    ensures env.redirectUri.Some? && env.redirectUri.value != "" ==> r == env.redirectUri.value
    ensures env.redirectUri.None? || env.redirectUri.value == "" ==> r == base + CallbackPath
  {
    if env.redirectUri.Some? && env.redirectUri.value != "" then env.redirectUri.value else base + CallbackPath
  }

  /** The seven parameter names of the authorization request are pairwise different. */
  lemma AuthorizationNamesDistinct()
    ensures "response_type" != "client_id" && "response_type" != "redirect_uri" && "response_type" != "scope"
    ensures "response_type" != "code_challenge_method" && "response_type" != "code_challenge" && "response_type" != "state"
    ensures "client_id" != "redirect_uri" && "client_id" != "scope" && "client_id" != "code_challenge_method"
    ensures "client_id" != "code_challenge" && "client_id" != "state"
    ensures "redirect_uri" != "scope" && "redirect_uri" != "code_challenge_method" && "redirect_uri" != "code_challenge"
    ensures "redirect_uri" != "state"
    ensures "scope" != "code_challenge_method" && "scope" != "code_challenge" && "scope" != "state"
    ensures "code_challenge_method" != "code_challenge" && "code_challenge_method" != "state"
    ensures "code_challenge" != "state"
  {
    assert |"response_type"| == 13 && |"client_id"| == 9 && |"redirect_uri"| == 12 && |"scope"| == 5;
    assert |"code_challenge_method"| == 21 && |"code_challenge"| == 14 && |"state"| == 5;
    assert "scope"[1] != "state"[1];
  }

  /** The Lichess authorization endpoint. */
  const AuthorizeEndpoint := "https://lichess.org/oauth"

  /**
   * The query login builds on the empty query of the authorization URL by
   * seven `searchParams.set` calls: the authorization request of section
   * 4.1.1 of RFC 6749 with the PKCE parameters of section 4.3 of RFC 7636.
   * As all seven names differ, each call appends its pair.
   */
  function AuthorizationRequest(clientId: string, redirectUri: string, challenge: string, state: string): (r: seq<UrlParams.Pair>)
    ensures r == [("response_type", "code"), ("client_id", clientId), ("redirect_uri", redirectUri), ("scope", "board:play"),
                  ("code_challenge_method", "S256"), ("code_challenge", challenge), ("state", state)]
    ensures UrlParams.GetParam(r, "redirect_uri") == Some(redirectUri)
    ensures UrlParams.GetParam(r, "code_challenge_method") == Some("S256")
    ensures UrlParams.GetParam(r, "code_challenge") == Some(challenge)
    ensures UrlParams.GetParam(r, "state") == Some(state)
  {
    AuthorizationNamesDistinct();
    var q0: seq<UrlParams.Pair> := [];
    UrlParams.SetAbsent(q0, "response_type", "code");
    var q1 := UrlParams.SetParam(q0, "response_type", "code");
    UrlParams.SetAbsent(q1, "client_id", clientId);
    var q2 := UrlParams.SetParam(q1, "client_id", clientId);
    UrlParams.SetAbsent(q2, "redirect_uri", redirectUri);
    var q3 := UrlParams.SetParam(q2, "redirect_uri", redirectUri);
    UrlParams.SetAbsent(q3, "scope", "board:play");
    var q4 := UrlParams.SetParam(q3, "scope", "board:play");
    UrlParams.SetAbsent(q4, "code_challenge_method", "S256");
    var q5 := UrlParams.SetParam(q4, "code_challenge_method", "S256");
    UrlParams.SetAbsent(q5, "code_challenge", challenge);
    var q6 := UrlParams.SetParam(q5, "code_challenge", challenge);
    UrlParams.SetAbsent(q6, "state", state);
    var q7 := UrlParams.SetParam(q6, "state", state);
    ReadsAfterSets(q2, redirectUri, challenge, state);
    SevenAppends(("response_type", "code"), ("client_id", clientId), ("redirect_uri", redirectUri), ("scope", "board:play"),
                 ("code_challenge_method", "S256"), ("code_challenge", challenge), ("state", state));
    q7
  }

  lemma SevenAppends<T>(a: T, b: T, c: T, d: T, e: T, f: T, g: T)
    ensures [] + [a] + [b] + [c] + [d] + [e] + [f] + [g] == [a, b, c, d, e, f, g]
  {
  }

  lemma ThreeAppends<T>(a: T, b: T, c: T)
    ensures [a] + [b] + [c] == [a, b, c]
  {
  }

  /** What the last five `set` calls leave readable by `get`. */
  lemma ReadsAfterSets(q2: seq<UrlParams.Pair>, redirectUri: string, challenge: string, state: string)
    ensures var q3 := UrlParams.SetParam(q2, "redirect_uri", redirectUri);
      var q4 := UrlParams.SetParam(q3, "scope", "board:play");
      var q5 := UrlParams.SetParam(q4, "code_challenge_method", "S256");
      var q6 := UrlParams.SetParam(q5, "code_challenge", challenge);
      var q7 := UrlParams.SetParam(q6, "state", state);
      UrlParams.GetParam(q7, "redirect_uri") == Some(redirectUri) &&
      UrlParams.GetParam(q7, "code_challenge_method") == Some("S256") &&
      UrlParams.GetParam(q7, "code_challenge") == Some(challenge) &&
      UrlParams.GetParam(q7, "state") == Some(state)
  {
    AuthorizationNamesDistinct();
    var q3 := UrlParams.SetParam(q2, "redirect_uri", redirectUri);
    var q4 := UrlParams.SetParam(q3, "scope", "board:play");
    var q5 := UrlParams.SetParam(q4, "code_challenge_method", "S256");
    var q6 := UrlParams.SetParam(q5, "code_challenge", challenge);
    UrlParams.GetAfterSet(q2, "redirect_uri", redirectUri, "redirect_uri");
    UrlParams.GetAfterSet(q3, "scope", "board:play", "redirect_uri");
    UrlParams.GetAfterSet(q4, "code_challenge_method", "S256", "redirect_uri");
    UrlParams.GetAfterSet(q5, "code_challenge", challenge, "redirect_uri");
    UrlParams.GetAfterSet(q6, "state", state, "redirect_uri");
    UrlParams.GetAfterSet(q4, "code_challenge_method", "S256", "code_challenge_method");
    UrlParams.GetAfterSet(q5, "code_challenge", challenge, "code_challenge_method");
    UrlParams.GetAfterSet(q6, "state", state, "code_challenge_method");
    UrlParams.GetAfterSet(q5, "code_challenge", challenge, "code_challenge");
    UrlParams.GetAfterSet(q6, "state", state, "code_challenge");
    UrlParams.GetAfterSet(q6, "state", state, "state");
  }

  /** The Set-Cookie line of the PKCE cookie: ten minutes, HTTP only, same-site lax. */
  function PkceSetCookie(token: string): (r: string)
    ensures |r| >= 5 + |PkceAttributes| && r[..5] == "pkce="
    ensures r[|r| - |PkceAttributes|..] == PkceAttributes
  {
    "pkce=" + UriCoding.EncodeUriComponent(token) + "; " + PkceAttributes
  }

  const PkceAttributes := "Path=/; HttpOnly; SameSite=Lax; Max-Age=600"

  /**
   * The login handler. Each `searchParams.set` appends its pair (all seven
   * names differ); the redirect goes to the authorization URL with that
   * query, and the PKCE cookie carries the state and verifier. The only
   * exception is the one hmac raises for an empty SESSION_SECRET.
   */
  method HandleLogin(p: Utils.Primitives, env: Utils.Env, url: Http.RequestUrl, state: string, random: seq<int>)
    returns (r: Result<Http.Response, JsError>)
    requires Utils.Lawful(p)
    requires IsUuid(state) && Utils.IsBytes(random) && |random| == 32
    ensures r.Failure? <==> env.sessionSecret == ""
    ensures r.Failure? ==> r.error == DataError
    ensures r.Success? ==>
      var verifier := CodeVerifier(random);
      var query := AuthorizationRequest(env.clientId, RedirectUri(env, Http.BaseUrl(url)), Utils.DeriveCodeChallenge(p, verifier), state);
      var token := Utils.CreatePkceCookie(p, state, verifier, env.sessionSecret);
      token.Success? &&
      r.value == Http.Response(302, [("Location", AuthorizeEndpoint + "?" + UrlParams.Serialize(query)),
                                     ("Set-Cookie", PkceSetCookie(token.value))], Http.NoBody)
  {
    var base := Http.BaseUrl(url);
    var redirectUri := RedirectUri(env, base);
    var codeVerifier := CodeVerifier(random);
    var codeChallenge := Utils.DeriveCodeChallenge(p, codeVerifier);
    var search := new UrlParams.SearchParams();
    search.Set("response_type", "code");
    search.Set("client_id", env.clientId);
    search.Set("redirect_uri", redirectUri);
    search.Set("scope", "board:play");
    search.Set("code_challenge_method", "S256");
    search.Set("code_challenge", codeChallenge);
    search.Set("state", state);
    assert search.list == AuthorizationRequest(env.clientId, redirectUri, codeChallenge, state);

    UuidIsLatin1(state);
    CodeVerifierValid(random);
    var pkceCookie := Utils.CreatePkceCookie(p, state, codeVerifier, env.sessionSecret);
    if pkceCookie.Failure? {
      return Failure(pkceCookie.error);
    }
    var setCookie := PkceSetCookie(pkceCookie.value);
    r := Success(Http.Response(302, [("Location", AuthorizeEndpoint + "?" + UrlParams.Serialize(search.list)),
                                     ("Set-Cookie", setCookie)], Http.NoBody));
  }

  /** The browser's copy of the PKCE Set-Cookie line reads back as the state and verifier signed into it. */
  lemma PkceSetCookieReadsBack(p: Utils.Primitives, state: string, verifier: string, secret: string)
    requires Utils.Lawful(p)
    requires state != "" && verifier != "" && secret != ""
    requires Base64.IsLatin1(state) && Base64.IsLatin1(verifier)
    ensures Utils.CreatePkceCookie(p, state, verifier, secret).Success?
    ensures Utils.ReadPkceCookie(p, Some(Http.CookieSentBack(PkceSetCookie(Utils.CreatePkceCookie(p, state, verifier, secret).value))), secret)
      == Success(Some(Utils.Pkce(state, verifier)))
  {
    Utils.PkceRoundTrip(p, state, verifier, secret);
    PkceSentBack(Utils.CreatePkceCookie(p, state, verifier, secret).value);
  }

  /** The browser keeps the attributes and returns `pkce=<encoded token>`. */
  lemma PkceSentBack(token: string)
    ensures Http.CookieSentBack(PkceSetCookie(token)) == "pkce=" + UriCoding.EncodeUriComponent(token)
  {
    var enc := UriCoding.EncodeUriComponent(token);
    Utils.PkceHeader(enc);
    UriCoding.EncodedHasNoDelimiters(token);
    Utils.NoSeparatorInPart("pkce", enc);
    Http.CookieSentBackOf("pkce=" + enc, PkceAttributes);
  }

  /**
   * What login hands the browser comes back to the callback intact: the
   * `pkce` cookie the browser returns reads as the state and verifier login
   * chose, and the query carries that state and the S256 challenge of that
   * verifier.
   */
  lemma LoginCookieReadsBack(p: Utils.Primitives, env: Utils.Env, base: string, state: string, random: seq<int>)
    requires Utils.Lawful(p)
    requires IsUuid(state) && Utils.IsBytes(random) && |random| == 32 && env.sessionSecret != ""
    ensures var verifier := CodeVerifier(random);
      var token := Utils.CreatePkceCookie(p, state, verifier, env.sessionSecret);
      var query := AuthorizationRequest(env.clientId, RedirectUri(env, base), Utils.DeriveCodeChallenge(p, verifier), state);
      token.Success? &&
      Utils.ReadPkceCookie(p, Some(Http.CookieSentBack(PkceSetCookie(token.value))), env.sessionSecret)
        == Success(Some(Utils.Pkce(state, verifier))) &&
      UrlParams.GetParam(query, "state") == Some(state) &&
      UrlParams.GetParam(query, "code_challenge") == Some(Utils.DeriveCodeChallenge(p, verifier))
  {
    UuidIsLatin1(state);
    CodeVerifierValid(random);
    PkceSetCookieReadsBack(p, state, CodeVerifier(random), env.sessionSecret);
  }
}
