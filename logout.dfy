/**
 * `GET /api/logout` (functions/api/logout.ts): the session named by a
 * verified cookie is deleted, and the cookie is always cleared.
 */
module Logout {
  import opened Wrappers
  import opened JsValues
  import Utils
  import Http
  import opened AuthStore
  import Me

  /** The 204 answer that makes the browser drop the session cookie. */
  const LoggedOutResponse := Http.Response(204, [("Set-Cookie", "session=; Path=/; Max-Age=0; HttpOnly; SameSite=Lax")], Http.NoBody)

  /**
   * The sessions table after logout: without the row named by the `sid`
   * of a truthy verified payload, unchanged otherwise; the exceptions of
   * parseCookies and hmac escape before the delete.
   */
  function LoggedOut(p: Utils.Primitives, secret: string, header: Option<string>, sessions: map<string, SessionRow>): (r: Result<map<string, SessionRow>, JsError>)
    requires Utils.Lawful(p)
    ensures r.Failure? <==> Me.CookieSession(p, header, secret).Failure?
    ensures r.Success? ==>
      var session := Me.CookieSession(p, header, secret).value;
      (Truthy(session) ==> r.value == sessions - {Me.SessionId(session)}) &&
      (!Truthy(session) ==> r.value == sessions)
  {
    match Me.CookieSession(p, header, secret)
    case Failure(e) => Failure(e)
    case Success(session) => Success(if Truthy(session) then sessions - {Me.SessionId(session)} else sessions)
  }

  /** The handler on the database: a conditional delete, then the cookie-clearing 204. */
  method HandleLogout(store: Store, p: Utils.Primitives, env: Utils.Env, req: Http.Request) returns (r: Result<Http.Response, JsError>)
    requires Utils.Lawful(p)
    modifies store
    ensures store.users == old(store.users)
    ensures r.Failure? <==> LoggedOut(p, env.sessionSecret, req.cookie, old(store.sessions)).Failure?
    ensures r.Failure? ==> store.sessions == old(store.sessions)
    ensures r.Success? ==> r.value == LoggedOutResponse && Success(store.sessions) == LoggedOut(p, env.sessionSecret, req.cookie, old(store.sessions))
  {
    var sess := Me.CookieSession(p, req.cookie, env.sessionSecret);
    if sess.Failure? {
      return Failure(sess.error);
    }
    if Truthy(sess.value) {
      store.DeleteSession(Me.SessionId(sess.value));
    }
    r := Success(LoggedOutResponse);
  }

  /** Logging out twice with the same cookie leaves the table as once. */
  lemma LogoutIdempotent(p: Utils.Primitives, secret: string, header: Option<string>, sessions: map<string, SessionRow>)
    requires Utils.Lawful(p)
    requires LoggedOut(p, secret, header, sessions).Success?
    ensures LoggedOut(p, secret, header, LoggedOut(p, secret, header, sessions).value) == LoggedOut(p, secret, header, sessions)
  {
    var session := Me.CookieSession(p, header, secret).value;
    var once := LoggedOut(p, secret, header, sessions).value;
    if Truthy(session) {
      var sid := Me.SessionId(session);
      assert sid !in once;
      assert once - {sid} == once;
    }
  }

  /** Logout never breaks the link from sessions to users. */
  lemma LogoutKeepsConsistent(p: Utils.Primitives, secret: string, header: Option<string>, users: map<string, UserRow>, sessions: map<string, SessionRow>)
    requires Utils.Lawful(p)
    requires Consistent(users, sessions) && LoggedOut(p, secret, header, sessions).Success?
    ensures Consistent(users, LoggedOut(p, secret, header, sessions).value)
  {
  }

  /** After logout, /me with the same cookie is not authenticated. */
  lemma MeAfterLogout(p: Utils.Primitives, env: Utils.Env, req: Http.Request, users: map<string, UserRow>, sessions: map<string, SessionRow>)
    requires Utils.Lawful(p)
    requires LoggedOut(p, env.sessionSecret, req.cookie, sessions).Success?
    ensures Me.Me(p, env, req, users, LoggedOut(p, env.sessionSecret, req.cookie, sessions).value) == Success(Http.JsonResponse(Me.Unauthenticated, 200))
  {
  }
}
