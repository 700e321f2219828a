/** server/src/users/service.py: accounts (create, look up, rename), the
    subscribe/unsubscribe guards and the subscriptions listing. */
module UsersService {
  import opened Common
  import opened Seqs
  import opened Store

  // -----------------------------------------------------------------------
  // Look-ups.

  /** The `**filters` `get_user` is called with: the id or the username. */
  datatype UserFilter = ById(id: Id) | ByUsername(username: string)

  predicate Matches(u: User, f: UserFilter) {
    match f
    case ById(id) => u.id == id
    case ByUsername(name) => u.username == name
  }

  /** `UserGet`, or `UserGetWithPassword` when the hash is included. */
  datatype UserView = UserView(id: Id, username: string, isAdmin: bool, hashedPassword: Option<string>)

  /** The schema a user row is returned in: the hash only on request. */
  function View(u: User, includePassword: bool): (v: UserView)
    ensures v.id == u.id && v.username == u.username && v.isAdmin == u.isAdmin
    ensures v.hashedPassword.Some? <==> includePassword
    ensures includePassword ==> v.hashedPassword.value == u.hashedPassword
  {
    UserView(u.id, u.username, u.isAdmin, if includePassword then Some(u.hashedPassword) else None)
  }

  /** Both filters pick out at most one user: ids are the key and usernames
      are unique. */
  lemma FilterUnique(t: Tables, f: UserFilter, u: User, v: User)
    requires Consistent(t) && u in t.users && v in t.users && Matches(u, f) && Matches(v, f)
    ensures u == v
  {
  }

  /** `get_user`: `scalar_one` raises when no user matches, which becomes
      UserNotFound; otherwise the one matching user, in the requested
      schema. */
  function GetUser(t: Tables, includePassword: bool, f: UserFilter): (r: Result<UserView>)
    requires Consistent(t)
    ensures r.Err? <==> forall u :: u in t.users ==> !Matches(u, f)
    ensures r.Err? ==> r.error == UserNotFound
    ensures r.Ok? ==> forall u :: u in t.users && Matches(u, f) ==> r.value == View(u, includePassword)
  {
    match FindBy(t.users, (u: User) => Matches(u, f))
    case None => Err(UserNotFound)
    case Some(u) =>
      assert forall v :: v in t.users && Matches(v, f) ==> v == u by {
        forall v | v in t.users && Matches(v, f) ensures v == u {
          FilterUnique(t, f, u, v);
        }
      }
      Ok(View(u, includePassword))
  }

  // -----------------------------------------------------------------------
  // Renaming.

  /** The outcome of `update_user` as written: `model_dump()` keeps an
      absent username as None, the UPDATE then writes NULL into a NOT NULL
      column, and that IntegrityError is reported as
      UsernameOrEmailAlreadyExists; a missing user makes `scalar_one` raise
      NoResultFound, which is not caught. */
  function RenameOutcome(users: seq<User>, userId: Id, username: Option<string>): (r: Result<User>)
    ensures userId !in UserIds(users) ==> r == Err(NoResultFound)
    ensures userId in UserIds(users) && username.None? ==> r == Err(UsernameOrEmailAlreadyExists)
    ensures userId in UserIds(users) && username.Some? ==>
      ((exists v :: v in users && v.id != userId && v.username == username.value)
       <==> r == Err(UsernameOrEmailAlreadyExists))
    ensures r.Ok? ==>
      && r.value.id == userId && username == Some(r.value.username)
      && exists u :: u in users && u.id == userId && r.value == u.(username := username.value)
  {
    match FindBy(users, (u: User) => u.id == userId)
    case None => Err(NoResultFound)
    case Some(u) =>
      if username.None? then Err(UsernameOrEmailAlreadyExists)
      else if exists v :: v in users && v.id != userId && v.username == username.value then
        Err(UsernameOrEmailAlreadyExists)
      else Ok(u.(username := username.value))
  }

  /** An update that names no new username is refused with an error that
      says the username is taken. */
  lemma EmptyUpdateRefused(users: seq<User>, u: User)
    requires u in users
    ensures RenameOutcome(users, u.id, None) == Err(UsernameOrEmailAlreadyExists)
  {
  }

  /** The evidently intended outcome, as with `exclude_none=True`: an absent
      username leaves the user as it is. */
  function RenameOutcomeExcludingNone(users: seq<User>, userId: Id, username: Option<string>): (r: Result<User>)
    ensures username.Some? ==> r == RenameOutcome(users, userId, username)
    ensures userId !in UserIds(users) ==> r == Err(NoResultFound)
    ensures userId in UserIds(users) && username.None? ==>
      r.Ok? && r.value in users && r.value.id == userId
  {
    if username.Some? then RenameOutcome(users, userId, username)
    else
      match FindBy(users, (u: User) => u.id == userId)
      case None => Err(NoResultFound)
      case Some(u) => Ok(u)
  }

  /** With the fix an empty update is a no-op that returns the stored user. */
  lemma EmptyUpdateKeepsUser(t: Tables, u: User)
    requires Consistent(t) && u in t.users
    ensures RenameOutcomeExcludingNone(t.users, u.id, None) == Ok(u)
  {
  }

  lemma ReplacedUserIds(users: seq<User>, i: nat, u: User)
    requires i < |users| && u.id == users[i].id
    ensures UserIds(users[i := u]) == UserIds(users)
  {
    var r := users[i := u];
    forall x | x in users ensures x.id in UserIds(r) {
      var j :| 0 <= j < |users| && users[j] == x;
      assert r[j] in r;
    }
  }

  /** Replacing one user by a renamed copy keeps ids as the key, usernames
      unique and the set of ids. */
  lemma RenamedUsers(users: seq<User>, i: nat, v: User)
    requires KeyedBy(users, UserKey) && i < |users| && v.id == users[i].id
    requires forall x, y :: x in users && y in users && x.username == y.username ==> x == y
    requires forall w :: w in users && w.id != v.id ==> w.username != v.username
    ensures KeyedBy(users[i := v], UserKey)
    ensures forall x, y :: x in users[i := v] && y in users[i := v] && x.username == y.username ==> x == y
    ensures UserIds(users[i := v]) == UserIds(users)
    ensures forall x :: x in users[i := v] ==> x == v || x in users
  {
    KeyedReplace(users, i, v, UserKey);
    ReplacedUserIds(users, i, v);
    var r := users[i := v];
    forall x | x in r ensures x == v || x in users {
      var a :| 0 <= a < |r| && r[a] == x;
      if a != i { assert x == users[a]; }
    }
  }

  lemma ReplaceUserConsistent(t: Tables, i: nat, v: User)
    requires Consistent(t) && i < |t.users| && v.id == t.users[i].id
    requires forall w :: w in t.users && w.id != v.id ==> w.username != v.username
    ensures Consistent(t.(users := t.users[i := v]))
  {
    RenamedUsers(t.users, i, v);
    var after := t.(users := t.users[i := v]);
    assert KeysOk(after);
    assert IdsFresh(after);
    assert RefsOk(after) by {
      assert UserIds(after.users) == UserIds(t.users);
    }
  }

  /** A successful rename rewrites exactly the renamed user's position. */
  lemma RenameAt(t: Tables, userId: Id, username: Option<string>) returns (i: nat)
    requires Consistent(t) && RenameOutcome(t.users, userId, username).Ok?
    ensures var v := RenameOutcome(t.users, userId, username).value;
      && i < |t.users| && t.users[i].id == userId && v == t.users[i].(username := username.value)
      && ReplaceKeyed(t.users, UserKey, userId, v) == t.users[i := v]
  {
    var v := RenameOutcome(t.users, userId, username).value;
    var u :| u in t.users && u.id == userId && v == u.(username := username.value);
    i :| 0 <= i < |t.users| && t.users[i] == u;
    ReplaceKeyedAt(t.users, UserKey, userId, v, i);
  }

  lemma RenameConsistent(t: Tables, userId: Id, username: Option<string>)
    requires Consistent(t) && RenameOutcome(t.users, userId, username).Ok?
    ensures Consistent(t.(users := ReplaceKeyed(t.users, UserKey, userId, RenameOutcome(t.users, userId, username).value)))
  {
    var v := RenameOutcome(t.users, userId, username).value;
    var i := RenameAt(t, userId, username);
    ReplaceUserConsistent(t, i, v);
  }

  // -----------------------------------------------------------------------
  // Subscriptions.

  /** What the subscriptions repository call can end in; its body is not
      part of this model, so the outcome is an input. */
  datatype Outcome = Done | Raised(error: Error)

  /** `subscribe`: subscribing to oneself is refused before the repository
      is called; a missing user reads as UserNotFound. */
  function Subscribe(userId: Id, subscriberId: Id, outcome: Outcome): (r: Result<()>)
    ensures userId == subscriberId ==> r == Err(CantSubscribeToUser)
    ensures userId != subscriberId ==>
      && (r.Ok? <==> outcome == Done)
      && (outcome == Raised(NoResultFound) ==> r == Err(UserNotFound))
      && (outcome.Raised? && outcome.error != NoResultFound ==> r == Err(outcome.error))
  {
    if userId == subscriberId then Err(CantSubscribeToUser)
    else
      match outcome
      case Done => Ok(())
      case Raised(NoResultFound) => Err(UserNotFound)
      case Raised(e) => Err(e)
  }

  /** `unsubscribe`: the same guard; "not a subscriber" (ValueError) reads
      as UserNotInSubscriptions. */
  function Unsubscribe(userId: Id, subscriberId: Id, outcome: Outcome): (r: Result<()>)
    ensures userId == subscriberId ==> r == Err(CantUnsubscribeFromUser)
    ensures userId != subscriberId ==>
      && (r.Ok? <==> outcome == Done)
      && (outcome == Raised(NoResultFound) ==> r == Err(UserNotFound))
      && (outcome == Raised(ValueError) ==> r == Err(UserNotInSubscriptions))
      && (outcome.Raised? && outcome.error !in {NoResultFound, ValueError} ==> r == Err(outcome.error))
  {
    if userId == subscriberId then Err(CantUnsubscribeFromUser)
    else
      match outcome
      case Done => Ok(())
      case Raised(NoResultFound) => Err(UserNotFound)
      case Raised(ValueError) => Err(UserNotInSubscriptions)
      case Raised(e) => Err(e)
  }

  /** Self-subscription is refused whatever the repository would have done:
      the guard comes first. */
  lemma SelfNeverReachesRepository(userId: Id, a: Outcome, b: Outcome)
    ensures Subscribe(userId, userId, a) == Subscribe(userId, userId, b)
    ensures Unsubscribe(userId, userId, a) == Unsubscribe(userId, userId, b)
  {
  }

  /** A subscribed-to user as loaded, with the ids of its subscribers. */
  datatype Subscription = Subscription(
    id: Id, username: string, subscribersCount: int, isAdmin: bool, subscribers: seq<Id>)

  /** `curr_user and (curr_user.user_id in [...])`: computed for every entry
      of the listing. */
  function IsSubscribed(curr: Option<Id>, subscribers: seq<Id>): (r: Option<bool>)
    ensures r.None? <==> curr.None?
    ensures r == Some(true) <==> curr.Some? && curr.value in subscribers
  {
    match curr
    case None => None
    case Some(id) => Some(id in subscribers)
  }

  /** One entry of the listing as `UserGet` builds it: the schema declares
      only the id, the username and the admin flag and ignores any other
      keyword, so the subscriber count and `is_subscribed` passed to it are
      dropped. */
  function EntryView(s: Subscription): (v: UserView)
    ensures v.id == s.id && v.username == s.username && v.isAdmin == s.isAdmin && v.hashedPassword.None?
  {
    UserView(s.id, s.username, s.isAdmin, None)
  }

  /** Where a Python slice bound lands in a sequence of length `n`:
      negative bounds count from the end, and both are clamped. */
  function PyBound(n: nat, i: int): (r: nat)
    ensures r <= n
    ensures 0 <= i ==> r == Min(i, n)
  {
    if i < 0 then (if n + i < 0 then 0 else n + i) else Min(i, n)
  }

  /** Python's `s[start:stop]` on integers of either sign. */
  function PySlice<T>(s: seq<T>, start: int, stop: int): (r: seq<T>)
    ensures |r| == if PyBound(|s|, start) < PyBound(|s|, stop) then PyBound(|s|, stop) - PyBound(|s|, start) else 0
    ensures forall i :: 0 <= i < |r| ==> r[i] == s[PyBound(|s|, start) + i]
  {
    var lo, hi := PyBound(|s|, start), PyBound(|s|, stop);
    if lo < hi then s[lo..hi] else []
  }

  /** `get_subscriptions` as written: the loaded list sliced with
      `[offset : offset + limit]` for any integers, each entry returned as
      `UserGet`. */
  function GetSubscriptions(found: Result<seq<Subscription>>, curr: Option<Id>, offset: int, limit: int)
    : (r: Result<seq<UserView>>)
    ensures found.Err? <==> r.Err?
    ensures found == Err(NoResultFound) ==> r == Err(UserNotFound)
    ensures found.Err? && found.error != NoResultFound ==> r == Err(found.error)
    ensures r.Ok? ==> |r.value| <= |found.value|
  {
    match found
    case Err(NoResultFound) => Err(UserNotFound)
    case Err(e) => Err(e)
    case Ok(users) =>
      var page := PySlice(users, offset, offset + limit);
      Ok(seq(|page|, i requires 0 <= i < |page| => EntryView(page[i])))
  }

  /** As written, the listing is the same whoever asks: the caller's mark is
      computed and then dropped with the rest of the extra fields. */
  lemma ListingIgnoresCaller(found: Result<seq<Subscription>>, a: Option<Id>, b: Option<Id>, offset: int, limit: int)
    ensures GetSubscriptions(found, a, offset, limit) == GetSubscriptions(found, b, offset, limit)
  {
  }

  /** A listing entry carrying what the service computes for it. */
  datatype MarkedEntry = MarkedEntry(user: UserView, subscribersCount: int, isSubscribed: Option<bool>)

  /** The evidently intended listing: each entry carries the subscriber count
      and the caller's mark that the service computes. */
  function GetSubscriptionsMarked(found: Result<seq<Subscription>>, curr: Option<Id>, offset: int, limit: int)
    : (r: Result<seq<MarkedEntry>>)
    ensures var plain := GetSubscriptions(found, curr, offset, limit);
      && (r.Err? <==> plain.Err?)
      && (r.Err? ==> r.error == plain.error)
      && (r.Ok? ==> |r.value| == |plain.value| && forall i :: 0 <= i < |r.value| ==> r.value[i].user == plain.value[i])
  {
    match found
    case Err(NoResultFound) => Err(UserNotFound)
    case Err(e) => Err(e)
    case Ok(users) =>
      var page := PySlice(users, offset, offset + limit);
      Ok(seq(|page|, i requires 0 <= i < |page| =>
        MarkedEntry(EntryView(page[i]), page[i].subscribersCount, IsSubscribed(curr, page[i].subscribers))))
  }

  /** Under the correction, for a non-negative offset and limit, each entry of
      the window says whether the caller subscribes to that user: nothing
      when nobody is logged in, true exactly when the caller is among its
      subscribers. */
  lemma MarkedListingMarksCaller(users: seq<Subscription>, curr: Option<Id>, offset: nat, limit: nat)
    ensures var r := GetSubscriptionsMarked(Ok(users), curr, offset, limit).value;
      var w := Window(users, offset, limit);
      && |r| == |w|
      && forall i :: 0 <= i < |r| ==>
           && r[i].user == EntryView(w[i])
           && r[i].subscribersCount == w[i].subscribersCount
           && (r[i].isSubscribed.None? <==> curr.None?)
           && (r[i].isSubscribed == Some(true) <==> curr.Some? && curr.value in w[i].subscribers)
  {
  }

  /** For a non-negative offset and limit the listing is the OFFSET/LIMIT
      window of the subscriptions. */
  lemma SubscriptionsAreWindow(users: seq<Subscription>, curr: Option<Id>, offset: nat, limit: nat)
    ensures var r := GetSubscriptions(Ok(users), curr, offset, limit).value;
      var w := Window(users, offset, limit);
      |r| == |w| <= limit && forall i :: 0 <= i < |r| ==> r[i] == EntryView(w[i])
  {
  }

  /** With a negative limit the listing is not bounded by it: limit -1 drops
      only the last subscription. */
  lemma NegativeLimitReturnsMore(a: Subscription, b: Subscription, c: Subscription)
    ensures |GetSubscriptions(Ok([a, b, c]), None, 0, -1).value| == 2
  {
  }

  /** The evidently intended listing: offset and limit are validated as
      non-negative (as the user listing routes validate theirs), so the page is the
      OFFSET/LIMIT window and never longer than `limit`. */
  function GetSubscriptionsBounded(found: Result<seq<Subscription>>, curr: Option<Id>, offset: int, limit: int)
    : (r: Result<seq<UserView>>)
    ensures offset < 0 || limit < 0 ==> r == Err(ValueError)
    ensures 0 <= offset && 0 <= limit ==> r == GetSubscriptions(found, curr, offset, limit)
    ensures r.Ok? ==> |r.value| <= limit
  {
    if offset < 0 || limit < 0 then Err(ValueError)
    else
      var r := GetSubscriptions(found, curr, offset, limit);
      assert r.Ok? ==> |r.value| <= limit by {
        if r.Ok? {
          SubscriptionsAreWindow(found.value, curr, offset, limit);
        }
      }
      r
  }

  // -----------------------------------------------------------------------
  // Statements.

  lemma CreateUserConsistent(t: Tables, u: User)
    requires Consistent(t)
    requires u.id == t.nextId && forall v :: v in t.users ==> v.username != u.username
    ensures Consistent(t.(users := t.users + [u], nextId := t.nextId + 1))
  {
    KeyedAppend(t.users, u, UserKey);
    var r := t.users + [u];
    forall x | x in t.users ensures x.id in UserIds(r) {
      assert x in r;
    }
  }

  /** `UserService`: statements over the shared session. */
  class UserService {
    const db: Database

    constructor (db: Database)
      ensures this.db == db
    {
      this.db := db;
    }

    /** `create_user`: only the hash of the password is stored; a taken
        username breaks the unique index and the IntegrityError is not
        caught. */
    method CreateUser(username: string, password: string, hash: string -> string) returns (r: Result<User>)
      requires db.Valid()
      modifies db
      ensures db.Valid()
      ensures (exists v :: v in old(db.users) && v.username == username) ==>
        r == Err(IntegrityError) && db.State() == old(db.State())
      ensures !(exists v :: v in old(db.users) && v.username == username) ==>
        && r == Ok(User(old(db.nextId), username, hash(password), 0, false))
        && db.State() == old(db.State()).(users := old(db.users) + [r.value], nextId := old(db.nextId) + 1)
    {
      if exists v :: v in db.users && v.username == username {
        return Err(IntegrityError);
      }
      var u := User(db.nextId, username, hash(password), 0, false);
      ghost var after := db.State().(users := db.users + [u], nextId := db.nextId + 1);
      CreateUserConsistent(db.State(), u);
      db.users := db.users + [u];
      db.nextId := db.nextId + 1;
      assert db.State() == after;
      r := Ok(u);
    }

    /** `update_user`: the outcome `RenameOutcome` describes; on success the
        row is replaced. */
    method UpdateUser(userId: Id, username: Option<string>) returns (r: Result<User>)
      requires db.Valid()
      modifies db
      ensures db.Valid()
      ensures r == RenameOutcome(old(db.users), userId, username)
      ensures r.Err? ==> db.State() == old(db.State())
      ensures r.Ok? ==> db.State() == old(db.State()).(users := ReplaceKeyed(old(db.users), UserKey, userId, r.value))
    {
      r := RenameOutcome(db.users, userId, username);
      if r.Err? {
        return;
      }
      ghost var after := db.State().(users := ReplaceKeyed(db.users, UserKey, userId, r.value));
      RenameConsistent(db.State(), userId, username);
      db.users := ReplaceKeyed(db.users, UserKey, userId, r.value);
      assert db.State() == after;
    }
  }

  /** A new user is found by its username, with the stored hash. */
  lemma CreatedUserFound(t: Tables, u: User)
    requires Consistent(t) && u.id == t.nextId && forall v :: v in t.users ==> v.username != u.username
    ensures var after := t.(users := t.users + [u], nextId := t.nextId + 1);
      Consistent(after)
      && GetUser(after, true, ByUsername(u.username)) == Ok(UserView(u.id, u.username, u.isAdmin, Some(u.hashedPassword)))
  {
    CreateUserConsistent(t, u);
    assert u in t.users + [u];
  }

  /** A user matching the filter is the one `get_user` returns. */
  lemma FoundAt(t: Tables, i: nat, f: UserFilter, includePassword: bool)
    requires Consistent(t) && i < |t.users| && Matches(t.users[i], f)
    ensures GetUser(t, includePassword, f) == Ok(View(t.users[i], includePassword))
  {
    assert t.users[i] in t.users;
  }

  /** After a rename the user is found under the new name. */
  lemma RenamedUserFound(t: Tables, userId: Id, name: string)
    requires Consistent(t) && RenameOutcome(t.users, userId, Some(name)).Ok?
    ensures var v := RenameOutcome(t.users, userId, Some(name)).value;
      var after := t.(users := ReplaceKeyed(t.users, UserKey, userId, v));
      Consistent(after) && GetUser(after, false, ByUsername(name)) == Ok(View(v, false))
  {
    var v := RenameOutcome(t.users, userId, Some(name)).value;
    var after := t.(users := ReplaceKeyed(t.users, UserKey, userId, v));
    RenameConsistent(t, userId, Some(name));
    var i := RenameAt(t, userId, Some(name));
    FoundAt(after, i, ByUsername(name), false);
  }
}
