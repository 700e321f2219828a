/** server/src/chats/router.py: the routes that change chat membership also
    append to the event log. Each event insert commits on its own, so a
    failure part-way through a loop keeps the events already written. */
module ChatsRouter {
  import opened Common
  import opened Store
  import opened ChatsRepository
  import opened ChatsService
  import opened EventsRepository

  /** The events the add-members and remove-members loops write for `ids`,
      in order: one per id, with that id as the altered user, numbered from
      `firstId`. */
  function EventsFor(kind: EventType, chatId: Id, actor: Id, ids: seq<Id>, now: int, firstId: Id): (r: seq<Event>)
    ensures |r| == |ids|
    decreases |ids|
  {
    if ids == [] then []
    else
      EventsFor(kind, chatId, actor, ids[..|ids| - 1], now, firstId)
        + [Event(firstId + |ids| - 1, kind, now, actor, Some(ids[|ids| - 1]), chatId)]
  }

  /** Event `i` of the batch is written by the actor, against the chat, for
      the `i`-th requested id, and carries id `firstId + i`. */
  lemma {:induction false} EventsForAt(kind: EventType, chatId: Id, actor: Id, ids: seq<Id>, now: int, firstId: Id)
    ensures forall i :: 0 <= i < |ids| ==>
      EventsFor(kind, chatId, actor, ids, now, firstId)[i] == Event(firstId + i, kind, now, actor, Some(ids[i]), chatId)
    decreases |ids|
  {
    if ids != [] {
      var init := ids[..|ids| - 1];
      EventsForAt(kind, chatId, actor, init, now, firstId);
    }
  }

  /** One more loop round appends one more event. */
  lemma EventsForStep(kind: EventType, chatId: Id, actor: Id, ids: seq<Id>, i: nat, now: int, firstId: Id)
    requires i < |ids|
    ensures EventsFor(kind, chatId, actor, ids[..i + 1], now, firstId)
         == EventsFor(kind, chatId, actor, ids[..i], now, firstId)
            + [Event(firstId + i, kind, now, actor, Some(ids[i]), chatId)]
  {
    assert ids[..i + 1][..i] == ids[..i];
  }

  /** The tables after the batch for `ids` went in: only the event log and
      the id counter move. */
  function Appended(t: Tables, kind: EventType, chatId: Id, actor: Id, ids: seq<Id>, now: int): (r: Tables)
    ensures r.users == t.users && r.chats == t.chats && r.members == t.members && r.messages == t.messages
    ensures |r.events| == |t.events| + |ids| && r.nextId == t.nextId + |ids|
  {
    t.(events := t.events + EventsFor(kind, chatId, actor, ids, now, t.nextId), nextId := t.nextId + |ids|)
  }

  /** One more event appended to the batch. */
  lemma AppendedStep(t: Tables, kind: EventType, chatId: Id, actor: Id, ids: seq<Id>, i: nat, now: int,
                     u: Tables, v: Tables, e: Event)
    requires i < |ids| && u == Appended(t, kind, chatId, actor, ids[..i], now)
    requires e == Event(u.nextId, kind, now, actor, Some(ids[i]), chatId)
    requires v == u.(events := u.events + [e], nextId := u.nextId + 1)
    ensures v == Appended(t, kind, chatId, actor, ids[..i + 1], now)
  {
    EventsForStep(kind, chatId, actor, ids, i, now, t.nextId);
  }

  /** Position of the first id that names no user (`|ids|` if every id
      does): the event insert at that position breaks the altered-user
      foreign key. */
  function FirstUnknown(users: seq<User>, ids: seq<Id>): (k: nat)
    ensures k <= |ids|
    ensures k < |ids| ==> ids[k] !in UserIds(users)
  {
    if ids == [] || ids[0] !in UserIds(users) then 0
    else 1 + FirstUnknown(users, ids[1..])
  }

  /** Every id before the first unknown one names a user. */
  lemma {:induction false} KnownBefore(users: seq<User>, ids: seq<Id>, j: nat)
    requires j < FirstUnknown(users, ids)
    ensures ids[j] in UserIds(users)
  {
    if j > 0 {
      KnownBefore(users, ids[1..], j - 1);
    }
  }

  /** The routes of `/chats` that write events. */
  class ChatRouter {
    const db: Database
    const chats: ChatService
    const events: EventRepository

    constructor (chats: ChatService, events: EventRepository)
      requires events.db == chats.repository.db
      ensures this.chats == chats && this.events == events && Wired()
    {
      this.db := chats.repository.db;
      this.chats := chats;
      this.events := events;
    }

    /** Both services work on the one session. */
    predicate Wired() {
      db == chats.repository.db && db == events.db
    }

    /** The `for altered_user_id in members_ids` loop shared by add-members
        and remove-members: events are written until the first id that names
        no user, whose insert raises. */
    method AppendEvents(kind: EventType, chatId: Id, actor: Id, ids: seq<Id>, now: int) returns (r: Result<()>)
      requires Wired() && db.Valid()
      requires chatId in ChatIds(db.chats) && actor in UserIds(db.users)
      modifies db
      ensures db.Valid()
      ensures r.Ok? <==> FirstUnknown(old(db.users), ids) == |ids|
      ensures r.Err? ==> r.error == IntegrityError
      ensures db.State() == old(db.State()).(
        events := old(db.events) + EventsFor(kind, chatId, actor, ids[..FirstUnknown(old(db.users), ids)], now, old(db.nextId)),
        nextId := old(db.nextId) + FirstUnknown(old(db.users), ids))
    {
      ghost var t := db.State();
      ghost var k := FirstUnknown(t.users, ids);
      ghost var last := Appended(t, kind, chatId, actor, ids[..k], now);
      var i := 0;
      while i < |ids|
        invariant 0 <= i <= k
        invariant db.Valid()
        invariant db.State() == Appended(t, kind, chatId, actor, ids[..i], now)
      {
        ghost var s := db.State();
        var created := events.Create(chatId, kind, actor, Some(ids[i]), now);
        if created.Err? {
          if i < k {
            KnownBefore(t.users, ids, i);
          }
          assert db.State() == last;
          return Err(IntegrityError);
        }
        assert ids[i] in UserIds(t.users) && i < k;
        AppendedStep(t, kind, chatId, actor, ids, i, now, s, db.State(), created.value);
        i := i + 1;
      }
      assert i == k && db.State() == last;
      r := Ok(());
    }

    /** `POST /chats/`: create the chat, then log its creation by the caller. */
    method CreateChat(userId: Id, title: string, isPrivate: bool, memberIds: seq<Id>, now: int) returns (r: Result<Chat>)
      requires Wired() && db.Valid()
      modifies db
      ensures db.Valid()
      ensures userId !in UserIds(old(db.users)) ==> r == Err(IntegrityError) && db.State() == old(db.State())
      ensures userId in UserIds(old(db.users)) ==>
        && r == Ok(Chat(old(db.nextId), title, isPrivate, userId))
        && db.State() == old(db.State()).(
             chats := old(db.chats) + [r.value],
             members := old(db.members) + Pairs(r.value.id, ToAdd(old(db.users), [userId] + memberIds)),
             events := old(db.events) + [Event(old(db.nextId) + 1, Created, now, userId, None, r.value.id)],
             nextId := old(db.nextId) + 2)
    {
      r := chats.CreateChat(userId, title, isPrivate, memberIds);
      if r.Err? {
        return;
      }
      var logged := events.Create(r.value.id, Created, userId, None, now);
      if logged.Err? {
        assert false;
      }
    }

    /** `POST /chats/{chat_id}/join`: join, then log it; an error of the
        join leaves no event, and an error of the event insert is raised. */
    method JoinChat(chatId: Id, userId: Id, isAdmin: bool, now: int) returns (r: Result<()>)
      requires Wired() && db.Valid()
      modifies db
      ensures db.Valid()
      ensures !isAdmin && chatId !in ChatIds(old(db.chats)) ==> r == Err(ChatNotFound)
      ensures (!isAdmin && chatId in ChatIds(old(db.chats)) && FindChat(old(db.chats), chatId).value.isPrivate)
        ==> r == Err(PermissionDenied)
      ensures (JoinGateOpen(old(db.chats), chatId, isAdmin) && userId in UserIds(old(db.users))
        && (chatId !in ChatIds(old(db.chats)) || (chatId, userId) in old(db.members)))
        ==> r == Err(AlreadyInChat)
      ensures JoinGateOpen(old(db.chats), chatId, isAdmin) && userId !in UserIds(old(db.users)) ==>
        r == Err(IntegrityError)
      ensures r.Err? ==> db.State() == old(db.State())
      ensures r.Ok? <==> (JoinGateOpen(old(db.chats), chatId, isAdmin)
        && userId in UserIds(old(db.users)) && chatId in ChatIds(old(db.chats))
        && (chatId, userId) !in old(db.members))
      ensures r.Ok? ==> db.State() == old(db.State()).(
        members := old(db.members) + {(chatId, userId)},
        events := old(db.events) + [Event(old(db.nextId), Joined, now, userId, None, chatId)],
        nextId := old(db.nextId) + 1)
    {
      var joined := chats.JoinChat(chatId, userId, isAdmin);
      if joined.Err? {
        return Err(joined.error);
      }
      var logged := events.Create(chatId, Joined, userId, None, now);
      if logged.Err? {
        return Err(logged.error);
      }
      r := Ok(());
    }

    /** `DELETE /chats/{chat_id}/leave`: leave, then try to log it. When the
        caller was the last member the chat is gone, the event insert breaks
        its chat foreign key, and that error is swallowed: the route still
        succeeds, without a LEAVE event. */
    method LeaveChat(chatId: Id, userId: Id, now: int) returns (r: Result<()>)
      requires Wired() && db.Valid()
      modifies db
      ensures db.Valid()
      ensures r.Err? <==> (chatId, userId) !in old(db.members)
      ensures r.Err? ==> r.error == FailedToLeaveChat && db.State() == old(db.State())
      ensures (r.Ok? && MembersOf(old(db.members), chatId) != {userId}) ==>
        db.State() == old(db.State()).(
          members := old(db.members) - {(chatId, userId)},
          events := old(db.events) + [Event(old(db.nextId), Leaved, now, userId, None, chatId)],
          nextId := old(db.nextId) + 1)
      ensures (r.Ok? && MembersOf(old(db.members), chatId) == {userId}) ==>
        db.State() == DeleteChat(old(db.State()), chatId)
    {
      ghost var t := db.State();
      r := chats.LeaveChat(chatId, userId);
      if r.Err? {
        return;
      }
      assert userId in UserIds(t.users);
      var logged := events.Create(chatId, Leaved, userId, None, now);
    }

    /** `POST /chats/{chat_id}/add-members`: add, then log one ADD event per
        requested id, including ids that added no row; the first id that
        names no user makes the route fail after the members were added. */
    method AddMembersToChat(chatId: Id, userId: Id, memberIds: seq<Id>, now: int) returns (r: Result<nat>)
      requires Wired() && db.Valid()
      modifies db
      ensures db.Valid()
      ensures !AddSucceeds(old(db.State()), chatId, userId, memberIds) ==>
        && r == AddOutcome(old(db.State()), chatId, userId, memberIds)
        && r.Err? && r.error != IntegrityError && db.State() == old(db.State())
      ensures var check := CheckChatExistsAndUserIsOwner(old(db.chats), chatId, userId);
        check.Err? ==> r == Err(check.error)
      ensures AddSucceeds(old(db.State()), chatId, userId, memberIds) ==>
        var k := FirstUnknown(old(db.users), memberIds);
        && (r.Ok? <==> k == |memberIds|)
        && (r.Ok? ==> r.value == |ToAdd(old(db.users), memberIds)|)
        && (r.Err? ==> r.error == IntegrityError)
        && db.State() == old(db.State()).(
             members := old(db.members) + Pairs(chatId, ToAdd(old(db.users), memberIds)),
             events := old(db.events) + EventsFor(Added, chatId, userId, memberIds[..k], now, old(db.nextId)),
             nextId := old(db.nextId) + k)
    {
      var added := chats.AddMembersToChat(chatId, userId, memberIds);
      if added.Err? {
        return Err(added.error);
      }
      var logged := AppendEvents(Added, chatId, userId, memberIds, now);
      if logged.Err? {
        return Err(logged.error);
      }
      r := added;
    }

    /** `DELETE /chats/{chat_id}/remove-members`: remove, then log one
        REMOVE event per requested id, as for add-members. */
    method RemoveMembersFromChat(chatId: Id, userId: Id, memberIds: seq<Id>, now: int) returns (r: Result<nat>)
      requires Wired() && db.Valid()
      modifies db
      ensures db.Valid()
      ensures !RemoveSucceeds(old(db.State()), chatId, userId, memberIds) ==>
        && r == RemoveOutcome(old(db.State()), chatId, userId, memberIds)
        && r.Err? && r.error != IntegrityError && db.State() == old(db.State())
      ensures var check := CheckChatExistsAndUserIsOwner(old(db.chats), chatId, userId);
        check.Err? ==> r == Err(check.error)
      ensures RemoveSucceeds(old(db.State()), chatId, userId, memberIds) ==>
        var k := FirstUnknown(old(db.users), memberIds);
        && (r.Ok? <==> k == |memberIds|)
        && (r.Ok? ==> r.value == |Listed(old(db.members), chatId, memberIds)|)
        && (r.Err? ==> r.error == IntegrityError)
        && db.State() == old(db.State()).(
             members := old(db.members) - Listed(old(db.members), chatId, memberIds),
             events := old(db.events) + EventsFor(Removed, chatId, userId, memberIds[..k], now, old(db.nextId)),
             nextId := old(db.nextId) + k)
    {
      var removed := chats.RemoveMembersFromChat(chatId, userId, memberIds);
      if removed.Err? {
        return Err(removed.error);
      }
      var logged := AppendEvents(Removed, chatId, userId, memberIds, now);
      if logged.Err? {
        return Err(logged.error);
      }
      r := removed;
    }
  }
}
