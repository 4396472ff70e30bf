/**
 * `GET /api/oauth/callback` (functions/api/oauth/callback.ts): the
 * validation chain (code, PKCE cookie, state), the token exchange and
 * profile fetch, the user upsert and session insert, and the session
 * cookie.
 *
 * The provider's two endpoints, the fresh session id and the clock are
 * parameters. The pure function `Callback` states the outcome (response and
 * both tables); the method `HandleCallback` performs the same steps on a
 * `Store` and is proved to reach that outcome.
 */
module Callback {
  import opened Wrappers
  import opened JsValues
  import Base64
  import JsStrings
  import UriCoding
  import UrlParams
  import Utils
  import Http
  import opened AuthStore
  import Login

  /**
   * The provider as the handler sees it: the token endpoint, given the
   * urlencoded form, and the account endpoint, given the access token; each
   * yields the parsed JSON body or the error thrown for a response that is
   * not ok.
   */
  datatype Provider = Provider(token: string -> Result<JsValue, JsError>, account: string -> Result<JsValue, JsError>)

  /** Where the validation chain leaves the request: answered, or cleared with its code and PKCE fields. */
  datatype Gate = Reject(response: Http.Response) | Proceed(code: string, pkce: Utils.Pkce)

  /** `{ error: message }`. */
  function ErrorBody(message: string): JsValue
  {
    Obj(map["error" := Str(message)])
  }

  /** `url.searchParams.get('state') || ''`. */
  function ReturnedState(query: seq<UrlParams.Pair>): (r: string)
    ensures UrlParams.GetParam(query, "state").None? ==> r == ""
    ensures UrlParams.GetParam(query, "state").Some? ==> r == UrlParams.GetParam(query, "state").value
  {
    match UrlParams.GetParam(query, "state")
    case None => ""
    case Some(s) => s
  }

  /** The missing-code answer: a plain-text 400. */
  const MissingCode := Http.Response(400, [], Http.Text("Missing code"))

  /**
   * The checks before any provider call, in the source's order: a missing
   * or empty `code` is answered first; then an absent or unverifiable PKCE
   * cookie; then a `state` that differs from the signed one (section 10.12
   * of RFC 6749). The exceptions of parseCookies and hmac escape.
   */
  function Validate(p: Utils.Primitives, env: Utils.Env, req: Http.Request): (r: Result<Gate, JsError>)
    requires Utils.Lawful(p)
    ensures r.Success? && r.value.Reject? ==> r.value.response.status == 400
    ensures r.Success? && r.value.Proceed? ==>
      r.value.code != "" && ReturnedState(req.url.query) == r.value.pkce.state &&
      Utils.ReadPkceCookie(p, req.cookie, env.sessionSecret) == Success(Some(r.value.pkce))
  {
    var code := UrlParams.GetParam(req.url.query, "code");
    if code.None? || code.value == "" then Success(Reject(MissingCode))
    else match Utils.ReadPkceCookie(p, req.cookie, env.sessionSecret)
      case Failure(e) => Failure(e)
      case Success(None) => Success(Reject(Http.JsonResponse(ErrorBody("missing pkce cookie"), 400)))
      case Success(Some(pkce)) =>
        if ReturnedState(req.url.query) != pkce.state then Success(Reject(Http.JsonResponse(ErrorBody("state mismatch"), 400)))
        else Success(Proceed(code.value, pkce))
  }

  /**
   * The order of the checks: each answer is given exactly when the checks
   * before it pass and its own fails, and a cleared request carries the
   * code and the verified PKCE fields.
   */
  lemma ValidateChain(p: Utils.Primitives, env: Utils.Env, req: Http.Request)
    requires Utils.Lawful(p)
    ensures var r := Validate(p, env, req);
      var code := UrlParams.GetParam(req.url.query, "code");
      code.None? || code.value == "" ==> r == Success(Reject(MissingCode))
    ensures var r := Validate(p, env, req);
      var code := UrlParams.GetParam(req.url.query, "code");
      code.Some? && code.value != "" && Utils.ReadPkceCookie(p, req.cookie, env.sessionSecret) == Success(None) ==>
      r == Success(Reject(Http.JsonResponse(ErrorBody("missing pkce cookie"), 400)))
    ensures var r := Validate(p, env, req);
      var code := UrlParams.GetParam(req.url.query, "code");
      code.Some? && code.value != "" && Utils.ReadPkceCookie(p, req.cookie, env.sessionSecret).Failure? ==>
      r == Failure(Utils.ReadPkceCookie(p, req.cookie, env.sessionSecret).error)
    ensures var r := Validate(p, env, req);
      var code := UrlParams.GetParam(req.url.query, "code");
      var pkce := Utils.ReadPkceCookie(p, req.cookie, env.sessionSecret);
      code.Some? && code.value != "" && pkce.Success? && pkce.value.Some? && ReturnedState(req.url.query) != pkce.value.value.state ==>
      r == Success(Reject(Http.JsonResponse(ErrorBody("state mismatch"), 400)))
    ensures var r := Validate(p, env, req);
      r.Success? && r.value.Proceed? ==>
      UrlParams.GetParam(req.url.query, "code") == Some(r.value.code) && r.value.code != "" &&
      Utils.ReadPkceCookie(p, req.cookie, env.sessionSecret) == Success(Some(r.value.pkce)) &&
      ReturnedState(req.url.query) == r.value.pkce.state
  {
  }

  /**
   * The token form with `redirect_uri` resolved as login resolves it, so
   * that both requests carry the same value.
   */
  function TokenRequestFixed(code: string, codeVerifier: string, env: Utils.Env, base: string): (r: seq<UrlParams.Pair>)
    ensures UrlParams.GetParam(r, "redirect_uri") == Some(Login.RedirectUri(env, base))
  {
    Utils.TokenRequestFor(code, codeVerifier, env.clientId, Login.RedirectUri(env, base))
  }

  /**
   * The body of the token request: the corrected form, URL-encoded. It
   * splits at `&` into one `name=value` piece per pair of that form.
   */
  function TokenForm(code: string, pkce: Utils.Pkce, env: Utils.Env, url: Http.RequestUrl): (r: string)
    ensures JsStrings.Split(r, '&') == UrlParams.PairTexts(TokenRequestFixed(code, pkce.codeVerifier, env, Http.BaseUrl(url)))
  {
    var ps := TokenRequestFixed(code, pkce.codeVerifier, env, Http.BaseUrl(url));
    UrlParams.SerializeSplits(ps);
    UrlParams.Serialize(ps)
  }

  /**
   * Whenever OAUTH_REDIRECT_URI is set, the body the handler posts is the
   * form `exchangeCodeForToken` builds as written.
   */
  lemma TokenFormAsWritten(code: string, pkce: Utils.Pkce, env: Utils.Env, url: Http.RequestUrl)
    requires env.redirectUri.Some? && env.redirectUri.value != ""
    ensures TokenForm(code, pkce, env, url) == UrlParams.Serialize(Utils.TokenRequestParams(code, pkce.codeVerifier, env))
  {
    TokenRedirectMatches(code, pkce.codeVerifier, env, Http.BaseUrl(url), "", "");
  }

  /** `v.key`: reading a property of null or undefined throws a TypeError. */
  function Property(v: JsValue, key: string): (r: Result<JsValue, JsError>)
    ensures r.Failure? <==> v.Null? || v.Undefined?
    ensures r.Failure? ==> r.error == TypeError
    ensures r.Success? ==> r.value == Get(v, key)
  {
    if v.Null? || v.Undefined? then Failure(TypeError) else Success(Get(v, key))
  }

  /** `v?.key`: undefined for null or undefined. */
  function OptionalProperty(v: JsValue, key: string): (r: JsValue)
    ensures v.Null? || v.Undefined? ==> r == Undefined
    ensures !(v.Null? || v.Undefined?) ==> r == Get(v, key)
  {
    if v.Null? || v.Undefined? then Undefined else Get(v, key)
  }

  /** The account fields the handler keeps. */
  datatype Profile = Profile(userId: string, username: string, title: JsValue)

  /**
   * `String(profile.id || profile.user?.id || profile.username)`,
   * `String(profile.username || profile.name || 'unknown')` and
   * `profile.title || null`: the first truthy candidate, in that order,
   * the last one when none is.
   */
  function ProfileFields(profile: JsValue): (r: Result<Profile, JsError>)
    ensures r.Failure? <==> profile.Null? || profile.Undefined?
    ensures r.Failure? ==> r.error == TypeError
    ensures r.Success? ==>
      var id, userId, login := Get(profile, "id"), OptionalProperty(Get(profile, "user"), "id"), Get(profile, "username");
      (Truthy(id) ==> r.value.userId == ToJsString(id)) &&
      (!Truthy(id) && Truthy(userId) ==> r.value.userId == ToJsString(userId)) &&
      (!Truthy(id) && !Truthy(userId) ==> r.value.userId == ToJsString(login))
    ensures r.Success? ==>
      var login, name := Get(profile, "username"), Get(profile, "name");
      (Truthy(login) ==> r.value.username == ToJsString(login)) &&
      (!Truthy(login) && Truthy(name) ==> r.value.username == ToJsString(name)) &&
      (!Truthy(login) && !Truthy(name) ==> r.value.username == "unknown")
    ensures r.Success? ==> (Truthy(r.value.title) <==> Truthy(Get(profile, "title"))) && (!Truthy(r.value.title) ==> r.value.title == Null)
    ensures r.Success? && Truthy(Get(profile, "title")) ==> r.value.title == Get(profile, "title")
  {
    if profile.Null? || profile.Undefined? then Failure(TypeError)
    else
      var userId := ToJsString(Or(Or(Get(profile, "id"), OptionalProperty(Get(profile, "user"), "id")), Get(profile, "username")));
      var username := ToJsString(Or(Or(Get(profile, "username"), Get(profile, "name")), Str("unknown")));
      Success(Profile(userId, username, Or(Get(profile, "title"), Null)))
  }

  /** The largest time value a Date can hold, in milliseconds either side of the epoch. */
  const MaxTime := 8640000000000000

  /**
   * ToNumber for the values a token response carries: integers, booleans,
   * null, the empty string and strings of decimal digits, and an array
   * through its `join(',')` text; anything else is NaN (None).
   */
  function ToNumber(v: JsValue): (r: Option<int>)
    ensures v.Num? ==> r == Some(v.n)
    ensures v.Arr? && |v.items| == 0 ==> r == Some(0)
    ensures v.Arr? && |v.items| == 1 && v.items[0].Num? && v.items[0].n >= 0 ==> r == Some(v.items[0].n)
  {
    match v
    case Num(n) => Some(n)
    case Bool(b) => Some(if b then 1 else 0)
    case Null => Some(0)
    case Str(s) => StringToNumber(s)
    case Arr(items) =>
      var t := ToJsString(v);
      assert t == JoinItems(items);
      assert |items| == 0 ==> DigitsValue(t) == 0;
      assert |items| == 1 && items[0].Num? ==> t == ToJsString(items[0]);
      StringToNumber(t)
    case _ => None
  }

  /** ToNumber on a string: 0 for "", the value of a run of decimal digits, NaN otherwise. */
  function StringToNumber(s: string): (r: Option<int>)
    ensures (forall i :: 0 <= i < |s| ==> '0' <= s[i] <= '9') ==> r == Some(DigitsValue(s))
  {
    if forall i :: 0 <= i < |s| ==> '0' <= s[i] <= '9' then Some(DigitsValue(s)) else None
  }

  /**
   * `expires_in ? new Date(Date.now() + expires_in * 1000).toISOString() : null`,
   * as milliseconds: toISOString throws a RangeError on a time a Date cannot hold.
   */
  function ExpiresAt(expiresIn: JsValue, now: int): (r: Result<Option<int>, JsError>)
    ensures !Truthy(expiresIn) ==> r == Success(None)
    ensures Truthy(expiresIn) && ToNumber(expiresIn).Some? && -MaxTime <= now + ToNumber(expiresIn).value * 1000 <= MaxTime ==>
      r == Success(Some(now + ToNumber(expiresIn).value * 1000))
    ensures r.Failure? ==> r.error == RangeError
    ensures r.Success? && r.value.Some? ==> -MaxTime <= r.value.value <= MaxTime
  {
    if !Truthy(expiresIn) then Success(None)
    else match ToNumber(expiresIn)
      case None => Failure(RangeError)
      case Some(n) =>
        var t := now + n * 1000;
        if -MaxTime <= t <= MaxTime then Success(Some(t)) else Failure(RangeError)
  }

  /**
   * The session row bound for the insert: provider 'lichess', the refresh
   * token or null, the scope or 'board:play', and the expiry.
   */
  function SessionRowFor(sessionId: string, userId: string, token: JsValue, accessToken: JsValue, now: int): (r: Result<SessionRow, JsError>)
    ensures r.Failure? <==> ExpiresAt(Get(token, "expires_in"), now).Failure?
    ensures r.Success? ==>
      r.value.id == sessionId && r.value.userId == userId && r.value.provider == "lichess" &&
      r.value.accessToken == accessToken && r.value.createdAt == now &&
      r.value.refreshToken == (if Truthy(Get(token, "refresh_token")) then Get(token, "refresh_token") else Null) &&
      r.value.scope == (if Truthy(Get(token, "scope")) then Get(token, "scope") else Str("board:play")) &&
      Success(r.value.expiresAt) == ExpiresAt(Get(token, "expires_in"), now)
  {
    match ExpiresAt(Get(token, "expires_in"), now)
    case Failure(e) => Failure(e)
    case Success(expiresAt) =>
      Success(SessionRow(sessionId, userId, "lichess", accessToken, Or(Get(token, "refresh_token"), Null),
                         Or(Get(token, "scope"), Str("board:play")), expiresAt, now))
  }

  /** The signed session payload `{ sid, uid, u }`. */
  function SessionPayload(sid: string, uid: string, u: string): (r: JsValue)
    ensures IsJson(r)
    ensures Get(r, "sid") == Str(sid) && Get(r, "uid") == Str(uid) && Get(r, "u") == Str(u)
  {
    StringRecord(map["sid" := sid, "uid" := uid, "u" := u])
  }

  const SessionAttributes := "Path=/; HttpOnly; SameSite=Lax; Max-Age=2592000"

  /** The session cookie: thirty days, HTTP only, same-site lax. */
  function SessionSetCookie(token: string): string
  {
    "session=" + UriCoding.EncodeUriComponent(token) + "; " + SessionAttributes
  }

  /** The line that makes the browser drop the PKCE cookie. */
  const PkceClear := "pkce=; Path=/; Max-Age=0; HttpOnly; SameSite=Lax"

  /** The redirect home that completes a sign-in. */
  function SignedIn(cookieValue: string): (r: Http.Response)
    ensures r.status == 302 && r.body == Http.NoBody
    ensures Http.HeaderValues(r.headers, "Location") == ["/"]
  {
    var hs := [("Location", "/"), ("Set-Cookie", SessionSetCookie(cookieValue)), ("Set-Cookie", PkceClear)];
    assert |"Location"| != |"Set-Cookie"|;
    assert hs[1..][1..][1..] == [];
    assert Http.HeaderValues(hs[1..], "Location") == [];
    Http.Response(302, hs, Http.NoBody)
  }

  /** The handler's answer together with both tables after it. */
  datatype Outcome = Outcome(result: Result<Http.Response, JsError>, users: map<string, UserRow>, sessions: map<string, SessionRow>)

  /**
   * The provider's answers for a cleared request: the token response,
   * `token.access_token` (which throws on a null token) and the profile.
   */
  datatype Identity = Identity(token: JsValue, accessToken: JsValue, profile: Profile)

  function FetchIdentity(provider: Provider, form: string): (r: Result<Identity, JsError>)
    ensures r.Success? ==>
      provider.token(form) == Success(r.value.token) &&
      Property(r.value.token, "access_token") == Success(r.value.accessToken) &&
      provider.account(ToJsString(r.value.accessToken)).Success? &&
      ProfileFields(provider.account(ToJsString(r.value.accessToken)).value) == Success(r.value.profile)
  {
    match provider.token(form)
    case Failure(e) => Failure(e)
    case Success(token) =>
      match Property(token, "access_token")
      case Failure(e) => Failure(e)
      case Success(accessToken) =>
        match provider.account(ToJsString(accessToken))
        case Failure(e) => Failure(e)
        case Success(profile) =>
          match ProfileFields(profile)
          case Failure(e) => Failure(e)
          case Success(fields) => Success(Identity(token, accessToken, fields))
  }

  /**
   * From the upsert on: the user row is written first; the session row is
   * inserted unless its id is taken; the cookie is issued last. A failure
   * after a write leaves that write in place.
   */
  function Persist(p: Utils.Primitives, secret: string, id: Identity, users: map<string, UserRow>, sessions: map<string, SessionRow>,
                   sessionId: string, now: int): (o: Outcome)
    requires Utils.Lawful(p)
    ensures o.users == Upsert(users, id.profile.userId, id.profile.username, id.profile.title, now)
    ensures sessionId in sessions ==> o.sessions == sessions
  {
    var users1 := Upsert(users, id.profile.userId, id.profile.username, id.profile.title, now);
    match SessionRowFor(sessionId, id.profile.userId, id.token, id.accessToken, now)
    case Failure(e) => Outcome(Failure(e), users1, sessions)
    case Success(row) =>
      if sessionId in sessions then Outcome(Failure(ConstraintError), users1, sessions)
      else
        var sessions1 := sessions[sessionId := row];
        match Utils.CreateSessionCookie(p, SessionPayload(sessionId, id.profile.userId, id.profile.username), secret)
        case Failure(e) => Outcome(Failure(e), users1, sessions1)
        case Success(cookie) => Outcome(Success(SignedIn(cookie)), users1, sessions1)
  }

  /**
   * What the writes leave: at most one new session row, under the fresh
   * id, for the upserted user; on success that row is the bound one and
   * the answer carries the cookie signed over `{ sid, uid, u }`.
   */
  lemma PersistWrites(p: Utils.Primitives, secret: string, id: Identity, users: map<string, UserRow>, sessions: map<string, SessionRow>,
                      sessionId: string, now: int)
    requires Utils.Lawful(p)
    ensures var o := Persist(p, secret, id, users, sessions, sessionId, now);
      o.sessions == sessions ||
      (sessionId !in sessions && exists row :: o.sessions == sessions[sessionId := row] && row.id == sessionId && row.userId == id.profile.userId)
    ensures var o := Persist(p, secret, id, users, sessions, sessionId, now);
      o.result.Success? ==>
        sessionId !in sessions && sessionId in o.sessions &&
        SessionRowFor(sessionId, id.profile.userId, id.token, id.accessToken, now) == Success(o.sessions[sessionId]) &&
        var cookie := Utils.CreateSessionCookie(p, SessionPayload(sessionId, id.profile.userId, id.profile.username), secret);
        cookie.Success? && o.result.value == SignedIn(cookie.value)
  {
    var o := Persist(p, secret, id, users, sessions, sessionId, now);
    var row := SessionRowFor(sessionId, id.profile.userId, id.token, id.accessToken, now);
    if row.Success? && sessionId !in sessions {
      assert o.sessions == sessions[sessionId := row.value];
    }
  }

  /** A cleared request: the token exchange, the profile fetch, then the writes. */
  function Exchange(p: Utils.Primitives, env: Utils.Env, provider: Provider, url: Http.RequestUrl, code: string, pkce: Utils.Pkce,
                    users: map<string, UserRow>, sessions: map<string, SessionRow>, sessionId: string, now: int): (o: Outcome)
    requires Utils.Lawful(p)
    ensures var id := FetchIdentity(provider, TokenForm(code, pkce, env, url));
      id.Failure? ==> o == Outcome(Failure(id.error), users, sessions)
    ensures var id := FetchIdentity(provider, TokenForm(code, pkce, env, url));
      id.Success? ==> o.users == Upsert(users, id.value.profile.userId, id.value.profile.username, id.value.profile.title, now)
  {
    var id := FetchIdentity(provider, TokenForm(code, pkce, env, url));
    if id.Failure? then Outcome(Failure(id.error), users, sessions)
    else Persist(p, env.sessionSecret, id.value, users, sessions, sessionId, now)
  }

  /**
   * The whole handler. Until the validation chain clears the request,
   * its answer or exception is the result and neither table changes.
   */
  function Callback(p: Utils.Primitives, env: Utils.Env, provider: Provider, req: Http.Request,
                    users: map<string, UserRow>, sessions: map<string, SessionRow>, sessionId: string, now: int): (o: Outcome)
    requires Utils.Lawful(p)
    ensures var g := Validate(p, env, req);
      g.Failure? ==> o == Outcome(Failure(g.error), users, sessions)
    ensures var g := Validate(p, env, req);
      g.Success? && g.value.Reject? ==> o == Outcome(Success(g.value.response), users, sessions)
    ensures var g := Validate(p, env, req);
      g.Success? && g.value.Proceed? ==> o == Exchange(p, env, provider, req.url, g.value.code, g.value.pkce, users, sessions, sessionId, now)
  {
    match Validate(p, env, req)
    case Failure(e) => Outcome(Failure(e), users, sessions)
    case Success(Reject(response)) => Outcome(Success(response), users, sessions)
    case Success(Proceed(code, pkce)) => Exchange(p, env, provider, req.url, code, pkce, users, sessions, sessionId, now)
  }

  /**
   * The handler on the database: the same steps, with the upsert and the
   * insert applied to the store in place.
   */
  method HandleCallback(store: Store, p: Utils.Primitives, env: Utils.Env, provider: Provider, req: Http.Request, sessionId: string, now: int)
    returns (r: Result<Http.Response, JsError>)
    requires Utils.Lawful(p)
    modifies store
    ensures Outcome(r, store.users, store.sessions) == Callback(p, env, provider, req, old(store.users), old(store.sessions), sessionId, now)
  {
    var gate := Validate(p, env, req);
    if gate.Failure? {
      return Failure(gate.error);
    }
    if gate.value.Reject? {
      return Success(gate.value.response);
    }
    var code, pkce := gate.value.code, gate.value.pkce;
    var form := TokenForm(code, pkce, env, req.url);
    assert Callback(p, env, provider, req, store.users, store.sessions, sessionId, now)
        == Exchange(p, env, provider, req.url, code, pkce, store.users, store.sessions, sessionId, now);
    var identity := FetchIdentity(provider, form);
    if identity.Failure? {
      return Failure(identity.error);
    }
    r := PersistOn(store, p, env.sessionSecret, identity.value, sessionId, now);
  }

  /** The writes and the cookie on the store, appending the response headers one by one. */
  method PersistOn(store: Store, p: Utils.Primitives, secret: string, id: Identity, sessionId: string, now: int)
    returns (r: Result<Http.Response, JsError>)
    requires Utils.Lawful(p)
    modifies store
    ensures Outcome(r, store.users, store.sessions) == Persist(p, secret, id, old(store.users), old(store.sessions), sessionId, now)
  {
    store.UpsertUser(id.profile.userId, id.profile.username, id.profile.title, now);
    var row := SessionRowFor(sessionId, id.profile.userId, id.token, id.accessToken, now);
    if row.Failure? {
      return Failure(row.error);
    }
    var inserted := store.InsertSession(row.value);
    if inserted.Failure? {
      return Failure(inserted.error);
    }
    var cookie := Utils.CreateSessionCookie(p, SessionPayload(sessionId, id.profile.userId, id.profile.username), secret);
    if cookie.Failure? {
      return Failure(cookie.error);
    }
    var headers := [("Location", "/")];
    headers := headers + [("Set-Cookie", SessionSetCookie(cookie.value))];
    headers := headers + [("Set-Cookie", PkceClear)];
    Login.ThreeAppends(("Location", "/"), ("Set-Cookie", SessionSetCookie(cookie.value)), ("Set-Cookie", PkceClear));
    r := Success(Http.Response(302, headers, Http.NoBody));
  }

  /** Every outcome, failures after a write included, keeps the tables consistent. */
  lemma CallbackKeepsConsistent(p: Utils.Primitives, env: Utils.Env, provider: Provider, req: Http.Request,
                                users: map<string, UserRow>, sessions: map<string, SessionRow>, sessionId: string, now: int)
    requires Utils.Lawful(p)
    requires Consistent(users, sessions)
    ensures var o := Callback(p, env, provider, req, users, sessions, sessionId, now);
      Consistent(o.users, o.sessions)
  {
    var o := Callback(p, env, provider, req, users, sessions, sessionId, now);
    var g := Validate(p, env, req);
    if g.Success? && g.value.Proceed? {
      assert o == Exchange(p, env, provider, req.url, g.value.code, g.value.pkce, users, sessions, sessionId, now);
      ExchangeKeepsConsistent(p, env, provider, req.url, g.value.code, g.value.pkce, users, sessions, sessionId, now);
    } else {
      assert o.users == users && o.sessions == sessions;
    }
  }

  lemma ExchangeKeepsConsistent(p: Utils.Primitives, env: Utils.Env, provider: Provider, url: Http.RequestUrl, code: string, pkce: Utils.Pkce,
                                users: map<string, UserRow>, sessions: map<string, SessionRow>, sessionId: string, now: int)
    requires Utils.Lawful(p)
    requires Consistent(users, sessions)
    ensures var o := Exchange(p, env, provider, url, code, pkce, users, sessions, sessionId, now);
      Consistent(o.users, o.sessions)
  {
    var form := TokenForm(code, pkce, env, url);
    var id := FetchIdentity(provider, form);
    if id.Success? {
      assert Exchange(p, env, provider, url, code, pkce, users, sessions, sessionId, now)
          == Persist(p, env.sessionSecret, id.value, users, sessions, sessionId, now);
      PersistKeepsConsistent(p, env.sessionSecret, id.value, users, sessions, sessionId, now);
    }
  }

  lemma PersistKeepsConsistent(p: Utils.Primitives, secret: string, id: Identity, users: map<string, UserRow>, sessions: map<string, SessionRow>,
                               sessionId: string, now: int)
    requires Utils.Lawful(p)
    requires Consistent(users, sessions)
    ensures var o := Persist(p, secret, id, users, sessions, sessionId, now);
      Consistent(o.users, o.sessions)
  {
    var o := Persist(p, secret, id, users, sessions, sessionId, now);
    var pr := id.profile;
    PersistWrites(p, secret, id, users, sessions, sessionId, now);
    UpsertConsistent(users, sessions, pr.userId, pr.username, pr.title, now);
    if o.sessions != sessions {
      var row :| o.sessions == sessions[sessionId := row] && row.id == sessionId && row.userId == pr.userId;
      assert pr.userId in o.users;
    }
  }

  /** The sign-in facts for a cleared request, stated on `Exchange`. */
  ghost predicate SignedInWith(p: Utils.Primitives, secret: string, o: Outcome, sessions: map<string, SessionRow>, sessionId: string)
    requires Utils.Lawful(p)
  {
    o.result.Success? &&
    sessionId !in sessions && sessionId in o.sessions && o.sessions == sessions[sessionId := o.sessions[sessionId]] &&
    o.sessions[sessionId].provider == "lichess" &&
    o.sessions[sessionId].userId in o.users &&
    exists cookie :: o.result.value == SignedIn(cookie) &&
      Utils.VerifySessionCookie(p, Some(cookie), secret) ==
      Success(SessionPayload(sessionId, o.sessions[sessionId].userId, o.users[o.sessions[sessionId].userId].username))
  }

  lemma ExchangeSignIn(p: Utils.Primitives, env: Utils.Env, provider: Provider, url: Http.RequestUrl, code: string, pkce: Utils.Pkce,
                       users: map<string, UserRow>, sessions: map<string, SessionRow>, sessionId: string, now: int)
    requires Utils.Lawful(p)
    ensures var o := Exchange(p, env, provider, url, code, pkce, users, sessions, sessionId, now);
      o.result.Success? ==> SignedInWith(p, env.sessionSecret, o, sessions, sessionId)
  {
    var o := Exchange(p, env, provider, url, code, pkce, users, sessions, sessionId, now);
    var form := TokenForm(code, pkce, env, url);
    var fetched := FetchIdentity(provider, form);
    if o.result.Success? {
      var id := fetched.value;
      var pr := id.profile;
      assert o == Persist(p, env.sessionSecret, id, users, sessions, sessionId, now);
      PersistWrites(p, env.sessionSecret, id, users, sessions, sessionId, now);
      var payload := SessionPayload(sessionId, pr.userId, pr.username);
      var cookie := Utils.CreateSessionCookie(p, payload, env.sessionSecret).value;
      assert o.sessions[sessionId].userId == pr.userId;
      assert o.users[pr.userId].username == pr.username;
      Utils.SessionRoundTrip(p, payload, env.sessionSecret);
      assert o.result.value == SignedIn(cookie);
    }
  }

  /**
   * A sign-in (the 302 answer) happens only for a request that passed the
   * code, PKCE and state checks; it adds exactly one session row, under
   * the fresh id, for the upserted user; and the session cookie it sets
   * verifies to `{ sid, uid, u }` naming that row, its user and the user's
   * stored name.
   */
  lemma CallbackSignIn(p: Utils.Primitives, env: Utils.Env, provider: Provider, req: Http.Request,
                       users: map<string, UserRow>, sessions: map<string, SessionRow>, sessionId: string, now: int)
    requires Utils.Lawful(p)
    ensures var o := Callback(p, env, provider, req, users, sessions, sessionId, now);
      var g := Validate(p, env, req);
      o.result.Success? && o.result.value.status == 302 ==>
        g.Success? && g.value.Proceed? && ReturnedState(req.url.query) == g.value.pkce.state &&
        Utils.ReadPkceCookie(p, req.cookie, env.sessionSecret) == Success(Some(g.value.pkce)) &&
        SignedInWith(p, env.sessionSecret, o, sessions, sessionId)
  {
    var o := Callback(p, env, provider, req, users, sessions, sessionId, now);
    var g := Validate(p, env, req);
    if g.Success? && g.value.Proceed? {
      var code, pkce := g.value.code, g.value.pkce;
      assert o == Exchange(p, env, provider, req.url, code, pkce, users, sessions, sessionId, now);
      ExchangeSignIn(p, env, provider, req.url, code, pkce, users, sessions, sessionId, now);
    }
  }

  /**
   * The defect as written: with OAUTH_REDIRECT_URI unset or empty, login
   * sends the fallback callback URL while the token request sends
   * "undefined" or "", so the two `redirect_uri` values differ.
   */
  lemma TokenRedirectMismatch(code: string, verifier: string, env: Utils.Env, base: string, challenge: string, state: string)
    requires env.redirectUri.None? || env.redirectUri.value == ""
    ensures UrlParams.GetParam(Utils.TokenRequestParams(code, verifier, env), "redirect_uri")
         != UrlParams.GetParam(Login.AuthorizationRequest(env.clientId, Login.RedirectUri(env, base), challenge, state), "redirect_uri")
  {
    var sent := Utils.BindingText(env.redirectUri);
    assert |Login.CallbackPath| == 19;
    assert sent == "undefined" || sent == "";
    assert |sent| < |base + Login.CallbackPath|;
  }

  /**
   * The corrected token request carries the redirect URI of the
   * authorization request, as section 4.1.3 of RFC 6749 requires, and it
   * agrees with the request as written whenever the binding is set.
   */
  lemma TokenRedirectMatches(code: string, verifier: string, env: Utils.Env, base: string, challenge: string, state: string)
    ensures UrlParams.GetParam(TokenRequestFixed(code, verifier, env, base), "redirect_uri")
         == UrlParams.GetParam(Login.AuthorizationRequest(env.clientId, Login.RedirectUri(env, base), challenge, state), "redirect_uri")
    ensures env.redirectUri.Some? && env.redirectUri.value != "" ==>
      TokenRequestFixed(code, verifier, env, base) == Utils.TokenRequestParams(code, verifier, env)
  {
  }
}
