/**
 * The D1 tables `auth_users` and `auth_sessions` as two maps keyed by their
 * primary key `id`, with the statements the handlers run: the user upsert,
 * the session insert (no conflict clause, so an existing id makes it
 * throw), the session delete and the session-to-user join.
 */
module AuthStore {
  import opened Wrappers
  import opened JsValues

  /** A row of auth_users; timestamps are milliseconds since the epoch. */
  datatype UserRow = UserRow(id: string, username: string, title: JsValue, createdAt: int)

  /** A row of auth_sessions. */
  datatype SessionRow = SessionRow(
    id: string,
    userId: string,
    provider: string,
    accessToken: JsValue,
    refreshToken: JsValue,
    scope: JsValue,
    expiresAt: Option<int>,
    createdAt: int)

  /**
   * Rows are stored under their own id, and every session belongs to a
   * stored user (the handlers write a session only after upserting its user
   * and never delete users).
   */
  predicate Consistent(users: map<string, UserRow>, sessions: map<string, SessionRow>)
  {
    (forall k :: k in users ==> users[k].id == k) &&
    (forall k :: k in sessions ==> sessions[k].id == k && sessions[k].userId in users)
  }

  /**
   * `INSERT ... ON CONFLICT(id) DO UPDATE SET username=excluded.username,
   * title=excluded.title`: a new row, or the old row with only its
   * username and title replaced.
   */
  function Upsert(users: map<string, UserRow>, id: string, username: string, title: JsValue, createdAt: int): (r: map<string, UserRow>)
    ensures r.Keys == users.Keys + {id}
    ensures r[id].username == username && r[id].title == title
    ensures (id in users ==> r[id].id == users[id].id) && (id !in users ==> r[id].id == id)
    ensures r[id].createdAt == (if id in users then users[id].createdAt else createdAt)
    ensures forall k :: k in users && k != id ==> r[k] == users[k]
  {
    if id in users then users[id := users[id].(username := username, title := title)]
    else users[id := UserRow(id, username, title, createdAt)]
  }

  /** Upserting keeps the tables consistent. */
  lemma UpsertConsistent(users: map<string, UserRow>, sessions: map<string, SessionRow>, id: string, username: string, title: JsValue, createdAt: int)
    requires Consistent(users, sessions)
    requires id in users ==> users[id].id == id
    ensures Consistent(Upsert(users, id, username, title, createdAt), sessions)
  {
    var r := Upsert(users, id, username, title, createdAt);
    forall k | k in sessions
      ensures sessions[k].userId in r
    {
      assert sessions[k].userId in users;
    }
  }

  /** Upserting the same values twice is the same as once. */
  lemma UpsertIdempotent(users: map<string, UserRow>, id: string, username: string, title: JsValue, createdAt: int, later: int)
    ensures Upsert(Upsert(users, id, username, title, createdAt), id, username, title, later) == Upsert(users, id, username, title, createdAt)
  {
    var once := Upsert(users, id, username, title, createdAt);
    var twice := Upsert(once, id, username, title, later);
    assert twice.Keys == once.Keys;
    forall k | k in once
      ensures twice[k] == once[k]
    {
      if k == id {
        assert twice[k].createdAt == once[k].createdAt;
      }
    }
  }

  /**
   * `SELECT u.id, u.username, u.title, ... FROM auth_sessions s JOIN
   * auth_users u ON s.user_id = u.id WHERE s.id = ?1`: the user row of the
   * session `sid`, when both rows exist.
   */
  function SessionUser(users: map<string, UserRow>, sessions: map<string, SessionRow>, sid: string): (r: Option<UserRow>)
    ensures r.Some? <==> sid in sessions && sessions[sid].userId in users
    ensures r.Some? ==> r.value == users[sessions[sid].userId]
  {
    if sid in sessions && sessions[sid].userId in users then Some(users[sessions[sid].userId]) else None
  }

  /** The database binding: both tables, changed in place by the handlers' statements. */
  class Store {
    var users: map<string, UserRow>
    var sessions: map<string, SessionRow>

    constructor (users: map<string, UserRow>, sessions: map<string, SessionRow>)
      ensures this.users == users && this.sessions == sessions
    {
      this.users := users;
      this.sessions := sessions;
    }

    /** The user upsert; the sessions table is untouched. */
    method UpsertUser(id: string, username: string, title: JsValue, createdAt: int)
      modifies this
      ensures users == Upsert(old(users), id, username, title, createdAt)
      ensures sessions == old(sessions)
    {
      if id in users {
        users := users[id := users[id].(username := username, title := title)];
      } else {
        users := users[id := UserRow(id, username, title, createdAt)];
      }
    }

    /** The session insert: a second row under an existing id violates the primary key and throws. */
    method InsertSession(row: SessionRow) returns (r: Result<(), JsError>)
      modifies this
      ensures users == old(users)
      ensures r.Failure? <==> row.id in old(sessions)
      ensures r.Failure? ==> r.error == ConstraintError && sessions == old(sessions)
      ensures r.Success? ==> sessions == old(sessions)[row.id := row]
    {
      if row.id in sessions {
        r := Failure(ConstraintError);
      } else {
        sessions := sessions[row.id := row];
        r := Success(());
      }
    }

    /** `DELETE FROM auth_sessions WHERE id = ?1`: deleting a missing id is not an error. */
    method DeleteSession(id: string)
      modifies this
      ensures sessions == old(sessions) - {id}
      ensures users == old(users)
    {
      sessions := sessions - {id};
    }
  }
}
