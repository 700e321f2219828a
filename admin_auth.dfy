/** server/src/admin/auth.py, repository.py and models.py: the admin panel's
    login sessions. A session row lives in the `sessions` table; the browser
    keeps only its id in the signed request session. Times are whole seconds. */
module AdminAuth {
  import opened Common
  import opened Store
  import opened UsersService

  /** `SessionModel`. */
  datatype Session = Session(id: Id, userId: Id, expiresAt: int)

  /** A session authenticates up to and including its expiry instant. */
  predicate Live(s: Session, now: int)
    ensures Live(s, now) <==> now <= s.expiresAt
  {
    !(s.expiresAt < now)
  }

  /** The `session_id` entry of a request's signed session. */
  class Request {
    var sessionId: Option<Id>

    constructor(sessionId: Option<Id>)
      ensures this.sessionId == sessionId
    {
      this.sessionId := sessionId;
    }
  }

  /** `SessionRepository` over the `sessions` table, with a counter in
      place of uuid4. */
  class SessionRepository {
    var rows: map<Id, Session>
    var nextId: Id

    /** Every row is filed under its own id, and the counter is past them. */
    ghost predicate Valid()
      reads this
    {
      forall k :: k in rows ==> rows[k].id == k && k < nextId
    }

    constructor()
      ensures Valid() && rows == map[] && nextId == 0
    {
      rows := map[];
      nextId := 0;
    }

    /** `create`: inserts a row with a fresh id and returns it. */
    method Create(userId: Id, expiresAt: int) returns (s: Session)
      requires Valid()
      modifies this
      ensures Valid()
      ensures s == Session(old(nextId), userId, expiresAt) && s.id !in old(rows)
      ensures rows == old(rows)[s.id := s] && nextId == old(nextId) + 1
    {
      s := Session(nextId, userId, expiresAt);
      rows := rows[nextId := s];
      nextId := nextId + 1;
    }

    /** `get`: the row with that id, if any. */
    function Get(id: Id): (r: Option<Session>)
      requires Valid()
      reads this
      ensures r.Some? <==> id in rows
      ensures r.Some? ==> r.value == rows[id] && r.value.id == id
    {
      if id in rows then Some(rows[id]) else None
    }

    /** `delete`: removes the row with that id; a missing id is a no-op. */
    method Delete(id: Id)
      requires Valid()
      modifies this
      ensures Valid()
      ensures rows == old(rows) - {id} && nextId == old(nextId)
      ensures id !in old(rows) ==> rows == old(rows)
    {
      rows := rows - {id};
    }
  }

  /** `AdminAuth`: the sqladmin authentication backend. */
  class AdminAuth {
    const store: SessionRepository
    /** `settings.admin.session_expire_minutes`. */
    const expireMinutes: int

    constructor(store: SessionRepository, expireMinutes: int)
      ensures this.store == store && this.expireMinutes == expireMinutes
    {
      this.store := store;
      this.expireMinutes := expireMinutes;
    }

    /** The `issued_at` property: the expiry minus the session lifetime. */
    function IssuedAt(s: Session): (r: int)
      ensures s.expiresAt - r == 60 * expireMinutes
    {
      s.expiresAt - 60 * expireMinutes
    }

    /** A session is live exactly while no more than the session lifetime
        has passed since it was issued. */
    lemma LiveWithinLifetime(s: Session, now: int)
      ensures Live(s, now) <==> now - IssuedAt(s) <= 60 * expireMinutes
    {
    }

    /** `login`: succeeds iff the username names a user whose password
        validates and who is an admin. Success opens a session for the
        lifetime and stores its id in the request; failure changes nothing. */
    method Login(request: Request, t: Tables, username: string, password: string,
                 validate: (string, string) -> bool, now: int) returns (ok: bool)
      requires store.Valid() && Consistent(t)
      modifies store, request
      ensures store.Valid()
      ensures ok <==> exists u :: u in t.users && u.username == username && validate(password, u.hashedPassword) && u.isAdmin
      ensures !ok ==> store.rows == old(store.rows) && store.nextId == old(store.nextId)
                      && request.sessionId == old(request.sessionId)
      ensures ok ==>
        var id := old(store.nextId);
        && id !in old(store.rows)
        && request.sessionId == Some(id)
        && store.nextId == id + 1
        && (forall u :: u in t.users && u.username == username ==>
              store.rows == old(store.rows)[id := Session(id, u.id, now + 60 * expireMinutes)])
        && IssuedAt(store.rows[id]) == now
        && (expireMinutes >= 0 ==> Live(store.rows[id], now))
    {
      var found := GetUser(t, true, ByUsername(username));
      if found.Ok? && validate(password, found.value.hashedPassword.value) && found.value.isAdmin {
        var s := store.Create(found.value.id, now + 60 * expireMinutes);
        request.sessionId := Some(s.id);
        ok := true;
      } else {
        ok := false;
      }
    }

    /** `logout`: deletes the stored session when the request names one,
        always clears the request session, and reports success. */
    method Logout(request: Request) returns (ok: bool)
      requires store.Valid()
      modifies store, request
      ensures store.Valid()
      ensures ok && request.sessionId == None
      ensures old(request.sessionId).None? ==> store.rows == old(store.rows)
      ensures old(request.sessionId).Some? ==> store.rows == old(store.rows) - {old(request.sessionId).value}
      ensures store.nextId == old(store.nextId)
    {
      if request.sessionId.Some? {
        store.Delete(request.sessionId.value);
      }
      request.sessionId := None;
      ok := true;
    }

    /** `authenticate`: true iff the request names a stored session that
        has not expired. No id: false, nothing touched. An unknown id: the
        request session is cleared. An expired session: its row is deleted
        and the request session cleared. */
    method Authenticate(request: Request, now: int) returns (ok: bool)
      requires store.Valid()
      modifies store, request
      ensures store.Valid()
      ensures ok <==> old(request.sessionId).Some? && old(request.sessionId).value in old(store.rows)
                      && Live(old(store.rows)[old(request.sessionId).value], now)
      ensures store.nextId == old(store.nextId)
      ensures old(request.sessionId).None? ==> request.sessionId == None && store.rows == old(store.rows)
      ensures old(request.sessionId).Some? && old(request.sessionId).value !in old(store.rows) ==>
        request.sessionId == None && store.rows == old(store.rows)
      ensures old(request.sessionId).Some? && old(request.sessionId).value in old(store.rows) ==>
        var id := old(request.sessionId).value;
        if Live(old(store.rows)[id], now) then
          request.sessionId == Some(id) && store.rows == old(store.rows)
        else
          request.sessionId == None && store.rows == old(store.rows) - {id}
    {
      if request.sessionId.None? {
        return false;
      }
      var session := store.Get(request.sessionId.value);
      if session.None? {
        request.sessionId := None;
        return false;
      }
      if session.value.expiresAt < now {
        store.Delete(session.value.id);
        request.sessionId := None;
        return false;
      }
      ok := true;
    }
  }
}
