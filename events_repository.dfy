/** server/src/events/repository.py: the append-only log of membership events. */
module EventsRepository {
  import opened Common
  import opened Seqs
  import opened Store

  function EventTime(e: Event): int { e.createdAt }

  /** The chat's events (`filter_by(chat_id=...)`), in table order. */
  function ChatEvents(events: seq<Event>, chatId: Id): (r: seq<Event>)
    ensures forall e :: e in r <==> e in events && e.chatId == chatId
  {
    Filter(events, (e: Event) => e.chatId == chatId)
  }

  /** `get_multi`: the chat's events by `created_at DESC`, OFFSET/LIMIT, then
      the page reversed so that it reads oldest first. The page holds
      `limit` events, or what is left of the chat's events after the
      first `offset` when that is fewer. */
  function EventPage(events: seq<Event>, chatId: Id, offset: nat, limit: nat): (r: seq<Event>)
    ensures var n := |ChatEvents(events, chatId)|;
      |r| == Min(limit, n - Min(offset, n))
    ensures multiset(r) <= multiset(ChatEvents(events, chatId))
    ensures forall e :: e in r ==> e in events && e.chatId == chatId
    ensures SortedBy(r, EventTime)
  {
    var ofChat := ChatEvents(events, chatId);
    var newest := OrderBy(ofChat, EventTime, true);
    assert |newest| == |multiset(ofChat)|;
    var page := Window(newest, offset, limit);
    ReversedWindowOrdered(newest, (a: Event, b: Event) => Precedes(a, b, EventTime, true), offset, limit);
    WindowInside(newest, offset, limit);
    var r := Reverse(page);
    assert |r| == |page|;
    assert multiset(r) <= multiset(ofChat);
    forall e | e in r ensures e in events && e.chatId == chatId {
      assert e in multiset(ofChat);
    }
    r
  }

  /** For any offset the page is, read backwards, the OFFSET/LIMIT window of
      an ordering of the chat's events by `created_at DESC`: the `offset`
      events it skips are no older than any event returned, and the events
      after the window no newer. */
  lemma EventPageIsWindow(events: seq<Event>, chatId: Id, offset: nat, limit: nat)
    ensures exists s: seq<Event> ::
      && multiset(s) == multiset(ChatEvents(events, chatId))
      && OrderedBy(s, EventTime, true)
      && EventPage(events, chatId, offset, limit) == Reverse(Window(s, offset, limit))
      && (forall x: Event, y: Event :: x in Window(s, 0, offset) && y in Window(s, offset, limit) ==> y.createdAt <= x.createdAt)
      && (forall x: Event, y: Event :: x in Window(s, offset, limit) && y in Window(s, offset + limit, |s|) ==>
            y.createdAt <= x.createdAt)
  {
    var s := OrderBy(ChatEvents(events, chatId), EventTime, true);
    var skipped, page, rest := Window(s, 0, offset), Window(s, offset, limit), Window(s, offset + limit, |s|);
    WindowSplit(s, EventTime, true, offset, limit);
    forall x, y | x in skipped && y in page ensures y.createdAt <= x.createdAt {
      assert Precedes(x, y, EventTime, true);
    }
    forall x, y | x in page && y in rest ensures y.createdAt <= x.createdAt {
      assert Precedes(x, y, EventTime, true);
    }
    assert EventPage(events, chatId, offset, limit) == Reverse(page);
    assert multiset(s) == multiset(ChatEvents(events, chatId)) && OrderedBy(s, EventTime, true);
  }

  /** With no offset the page holds the newest events of the chat: an event
      of the chat left out is no newer than any event returned. */
  lemma EventPageKeepsNewest(events: seq<Event>, chatId: Id, limit: nat)
    ensures forall x, y ::
      x in events && x.chatId == chatId && x !in EventPage(events, chatId, 0, limit)
      && y in EventPage(events, chatId, 0, limit)
      ==> x.createdAt <= y.createdAt
  {
    var ofChat := ChatEvents(events, chatId);
    var s := OrderBy(ofChat, EventTime, true);
    var page := Window(s, 0, limit);
    var r := EventPage(events, chatId, 0, limit);
    assert r == Reverse(page);
    FirstWindowLeads(s, EventTime, true, limit);
    forall x, y | x in events && x.chatId == chatId && x !in r && y in r
      ensures x.createdAt <= y.createdAt
    {
      assert x in multiset(ofChat);
      assert y in page by { assert y in multiset(r); }
      assert x !in page by { assert x !in multiset(r); }
      assert Precedes(y, x, EventTime, true);
    }
  }

  lemma CreateConsistent(t: Tables, e: Event)
    requires Consistent(t)
    requires e.id == t.nextId && EventRefsOk(t.chats, t.users, e.chatId, e.userId, e.alteredUserId)
    ensures Consistent(t.(events := t.events + [e], nextId := t.nextId + 1))
  {
    KeyedAppend(t.events, e, EventKey);
  }

  /** `EventRepository`: statements over the shared session. */
  class EventRepository {
    const db: Database

    constructor (db: Database)
      ensures this.db == db
    {
      this.db := db;
    }

    /** `create`: insert one event stamped `now` (the column default);
        every foreign key (chat, actor, altered user) must hold. */
    method Create(chatId: Id, eventType: EventType, userId: Id, altered: Option<Id>, now: int)
      returns (r: Result<Event>)
      requires db.Valid()
      modifies db
      ensures db.Valid()
      ensures !EventRefsOk(old(db.chats), old(db.users), chatId, userId, altered) ==>
        r == Err(IntegrityError) && db.State() == old(db.State())
      ensures EventRefsOk(old(db.chats), old(db.users), chatId, userId, altered) ==>
        && r == Ok(Event(old(db.nextId), eventType, now, userId, altered, chatId))
        && db.State() == old(db.State()).(events := old(db.events) + [r.value], nextId := old(db.nextId) + 1)
    {
      if !EventRefsOk(db.chats, db.users, chatId, userId, altered) {
        return Err(IntegrityError);
      }
      var e := Event(db.nextId, eventType, now, userId, altered, chatId);
      ghost var after := db.State().(events := db.events + [e], nextId := db.nextId + 1);
      CreateConsistent(db.State(), e);
      db.events := db.events + [e];
      db.nextId := db.nextId + 1;
      assert db.State() == after;
      r := Ok(e);
    }
  }
}
