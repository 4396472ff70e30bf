/**
 * The three session handlers together: the cookie a sign-in sets, sent
 * back by the browser, authenticates /me as the signed-in user until
 * logout deletes its session row.
 */
module AuthFlow {
  import opened Wrappers
  import opened JsValues
  import JsStrings
  import UriCoding
  import Utils
  import Http
  import opened AuthStore
  import Callback
  import Me
  import Logout

  /** `session=` followed by a value is the name, `=` and the value. */
  lemma SessionHeader(enc: string)
    ensures "session=" + enc == "session" + "=" + enc
  {
  }

  /** The browser returns `session=<encoded token>` for the session Set-Cookie line. */
  lemma SessionSentBack(token: string)
    ensures Http.CookieSentBack(Callback.SessionSetCookie(token)) == "session=" + UriCoding.EncodeUriComponent(token)
  {
    var enc := UriCoding.EncodeUriComponent(token);
    SessionHeader(enc);
    UriCoding.EncodedHasNoDelimiters(token);
    Utils.NoSeparatorInPart("session", enc);
    Http.CookieSentBackOf("session=" + enc, Callback.SessionAttributes);
  }

  /** That header parses to the one `session` cookie holding the token. */
  lemma SessionHeaderParses(token: string)
    ensures Utils.ParseCookies(Some("session=" + UriCoding.EncodeUriComponent(token))) == Success(map["session" := token])
  {
    var enc := UriCoding.EncodeUriComponent(token);
    assert "session=" + enc == "session" + "=" + enc;
    Utils.ParseSingleCookie("session", token);
  }

  /** A session cookie that verifies to `{ sid, uid, u }` reads back, through the browser, as that payload. */
  lemma ReturnedSession(p: Utils.Primitives, secret: string, cookie: string, sid: string, uid: string, u: string)
    requires Utils.Lawful(p)
    requires Utils.VerifySessionCookie(p, Some(cookie), secret) == Success(Callback.SessionPayload(sid, uid, u))
    ensures Me.CookieSession(p, Some(Http.CookieSentBack(Callback.SessionSetCookie(cookie))), secret)
         == Success(Callback.SessionPayload(sid, uid, u))
  {
    PayloadNamesSession(sid, uid, u);
    SessionSentBack(cookie);
    SessionCookieRead(p, cookie, secret);
  }

  /** The signed payload is a truthy object whose `sid` is the session id. */
  lemma PayloadNamesSession(sid: string, uid: string, u: string)
    ensures Callback.SessionPayload(sid, uid, u) != Null
    ensures Me.SessionId(Callback.SessionPayload(sid, uid, u)) == sid && Truthy(Callback.SessionPayload(sid, uid, u))
  {
  }

  /** /me and logout read a non-empty `session` cookie the browser returns as the token it holds. */
  lemma SessionCookieRead(p: Utils.Primitives, cookie: string, secret: string)
    requires Utils.Lawful(p) && cookie != ""
    ensures Me.CookieSession(p, Some("session=" + UriCoding.EncodeUriComponent(cookie)), secret)
         == Utils.VerifySessionCookie(p, Some(cookie), secret)
  {
    SessionHeaderParses(cookie);
  }

  lemma SetCookieLines(cookie: string)
    ensures Http.HeaderValues(Callback.SignedIn(cookie).headers, "Set-Cookie") == [Callback.SessionSetCookie(cookie), Callback.PkceClear]
  {
    var hs := Callback.SignedIn(cookie).headers;
    assert |"Location"| != |"Set-Cookie"|;
    assert hs[1..][1..][1..] == [];
    assert Http.HeaderValues(hs[1..][1..], "Set-Cookie") == [Callback.PkceClear];
    assert Http.HeaderValues(hs[1..], "Set-Cookie") == [Callback.SessionSetCookie(cookie), Callback.PkceClear];
  }

  /**
   * After a sign-in, /me with the session cookie the browser returns
   * answers with the signed-in user; logout with the same cookie deletes
   * exactly that session row; and /me is then unauthenticated.
   */
  lemma SignInMeLogout(p: Utils.Primitives, env: Utils.Env, provider: Callback.Provider, req: Http.Request,
                       users: map<string, UserRow>, sessions: map<string, SessionRow>, sessionId: string, now: int, later: Http.RequestUrl)
    requires Utils.Lawful(p)
    ensures var o := Callback.Callback(p, env, provider, req, users, sessions, sessionId, now);
      o.result.Success? && o.result.value.status == 302 ==>
        |Http.HeaderValues(o.result.value.headers, "Set-Cookie")| == 2 &&
        var back := Http.Request(later, Some(Http.CookieSentBack(Http.HeaderValues(o.result.value.headers, "Set-Cookie")[0])));
        sessionId in o.sessions && o.sessions[sessionId].userId in o.users &&
        Me.Me(p, env, back, o.users, o.sessions) == Success(Http.JsonResponse(Me.AuthenticatedAs(o.users[o.sessions[sessionId].userId]), 200)) &&
        Logout.LoggedOut(p, env.sessionSecret, back.cookie, o.sessions) == Success(o.sessions - {sessionId}) &&
        Me.Me(p, env, back, o.users, o.sessions - {sessionId}) == Success(Http.JsonResponse(Me.Unauthenticated, 200))
  {
    var o := Callback.Callback(p, env, provider, req, users, sessions, sessionId, now);
    if o.result.Success? && o.result.value.status == 302 {
      Callback.CallbackSignIn(p, env, provider, req, users, sessions, sessionId, now);
      var uid := o.sessions[sessionId].userId;
      var u := o.users[uid].username;
      var cookie :| o.result.value == Callback.SignedIn(cookie) &&
        Utils.VerifySessionCookie(p, Some(cookie), env.sessionSecret) == Success(Callback.SessionPayload(sessionId, uid, u));
      SetCookieLines(cookie);
      ReturnedSession(p, env.sessionSecret, cookie, sessionId, uid, u);
      PayloadNamesSession(sessionId, uid, u);
      var back := Http.Request(later, Some(Http.CookieSentBack(Callback.SessionSetCookie(cookie))));
      assert Me.CookieSession(p, back.cookie, env.sessionSecret) == Success(Callback.SessionPayload(sessionId, uid, u));
      assert SessionUser(o.users, o.sessions, sessionId) == Some(o.users[uid]);
      assert SessionUser(o.users, o.sessions - {sessionId}, sessionId) == None;
    }
  }
}
