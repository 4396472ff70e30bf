/**
 * `GET /api/me` (functions/api/me.ts): the signed `session` cookie read,
 * and the session resolved by its `sid` against the join of
 * auth_sessions and auth_users. A read-only handler, modelled as a
 * function of the Cookie header and the two tables.
 */
module Me {
  import opened Wrappers
  import opened JsValues
  import Utils
  import Http
  import opened AuthStore

  /**
   * `verifySessionCookie(cookies['session'] || null, secret)`: an absent or
   * empty `session` cookie counts as none. /me and logout both start so.
   */
  function CookieSession(p: Utils.Primitives, header: Option<string>, secret: string): (r: Result<JsValue, JsError>)
    requires Utils.Lawful(p)
    ensures Utils.ParseCookies(header).Failure? ==> r == Failure(URIError)
    ensures Utils.ParseCookies(header).Success? && "session" !in Utils.ParseCookies(header).value ==> r == Success(Null)
    ensures r.Failure? ==> r.error == URIError || (r.error == DataError && secret == "")
  {
    match Utils.ParseCookies(header)
    case Failure(e) => Failure(e)
    case Success(cookies) =>
      var raw := if "session" in cookies && cookies["session"] != "" then Some(cookies["session"]) else None;
      Utils.VerifySessionCookie(p, raw, secret)
  }

  /** `String(session.sid)`: the only field of the payload the handlers use. */
  function SessionId(session: JsValue): (r: string)
    ensures Get(session, "sid").Str? ==> r == Get(session, "sid").s
    ensures Get(session, "sid").Undefined? ==> r == "undefined"
  {
    ToJsString(Get(session, "sid"))
  }

  /** `{ authenticated: false }`. */
  const Unauthenticated := Obj(map["authenticated" := Bool(false)])

  /** `{ id, username, title }` of the joined user row: no session or token field. */
  function UserView(row: UserRow): (r: JsValue)
    ensures r.Obj? && r.fields.Keys == {"id", "username", "title"}
    ensures Get(r, "id") == Str(row.id) && Get(r, "username") == Str(row.username) && Get(r, "title") == row.title
  {
    Obj(map["id" := Str(row.id), "username" := Str(row.username), "title" := row.title])
  }

  /** `{ authenticated: true, user: { id, username, title } }`. */
  function AuthenticatedAs(row: UserRow): (r: JsValue)
    ensures r != Unauthenticated
    ensures Get(r, "authenticated") == Bool(true) && Get(r, "user") == UserView(row)
  {
    var r := Obj(map["authenticated" := Bool(true), "user" := UserView(row)]);
    assert "user" in r.fields && "user" !in Unauthenticated.fields;
    r
  }

  /**
   * The body /me answers for a verified payload: authenticated exactly when
   * the payload is truthy and its `sid` joins a session row to a user row,
   * and then it shows that user.
   */
  function Resolve(session: JsValue, users: map<string, UserRow>, sessions: map<string, SessionRow>): (r: JsValue)
    ensures r != Unauthenticated <==> Truthy(session) && SessionUser(users, sessions, SessionId(session)).Some?
    ensures r != Unauthenticated ==> r == AuthenticatedAs(users[sessions[SessionId(session)].userId])
  {
    if !Truthy(session) then Unauthenticated
    else match SessionUser(users, sessions, SessionId(session))
      case None => Unauthenticated
      case Some(row) => AuthenticatedAs(row)
  }

  /** The handler: the exceptions of parseCookies and hmac escape; otherwise a 200 JSON answer. */
  function Me(p: Utils.Primitives, env: Utils.Env, req: Http.Request, users: map<string, UserRow>, sessions: map<string, SessionRow>): (r: Result<Http.Response, JsError>)
    requires Utils.Lawful(p)
    ensures r.Failure? <==> CookieSession(p, req.cookie, env.sessionSecret).Failure?
    ensures r.Success? ==>
      r.value == Http.JsonResponse(Resolve(CookieSession(p, req.cookie, env.sessionSecret).value, users, sessions), 200)
  {
    match CookieSession(p, req.cookie, env.sessionSecret)
    case Failure(e) => Failure(e)
    case Success(session) => Success(Http.JsonResponse(Resolve(session, users, sessions), 200))
  }

  /**
   * Only the `sid` of the payload matters: two truthy payloads with the
   * same `sid` resolve alike, whatever their `uid` and `u` claim.
   */
  lemma ResolveReadsOnlySid(s1: JsValue, s2: JsValue, users: map<string, UserRow>, sessions: map<string, SessionRow>)
    requires Truthy(s1) && Truthy(s2) && SessionId(s1) == SessionId(s2)
    ensures Resolve(s1, users, sessions) == Resolve(s2, users, sessions)
  {
  }

  /**
   * The answer does not depend on what a session row stores beyond its
   * user: tables that differ only in tokens, scope or times give the same
   * body.
   */
  lemma ResolveIgnoresTokens(session: JsValue, users: map<string, UserRow>, s1: map<string, SessionRow>, s2: map<string, SessionRow>)
    requires s1.Keys == s2.Keys
    requires forall k :: k in s1 ==> s1[k].userId == s2[k].userId
    ensures Resolve(session, users, s1) == Resolve(session, users, s2)
  {
    var sid := SessionId(session);
    if sid in s1 {
      assert s1[sid].userId == s2[sid].userId;
    }
  }
}
