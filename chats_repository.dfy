/** server/src/chats/repository.py: the chat table, its membership pairs, and
    the merged message/event history of one chat. */
module ChatsRepository {
  import opened Common
  import opened Seqs
  import opened Store

  // -----------------------------------------------------------------------
  // History: messages and events of one chat as a single stream.

  datatype HistoryItem = MessageItem(message: Message) | EventItem(event: Event)

  function ItemId(h: HistoryItem): nat {
    match h
    case MessageItem(m) => m.id
    case EventItem(e) => e.id
  }

  function ItemCreatedAt(h: HistoryItem): int {
    match h
    case MessageItem(m) => m.createdAt
    case EventItem(e) => e.createdAt
  }

  function ItemChat(h: HistoryItem): Id {
    match h
    case MessageItem(m) => m.chatId
    case EventItem(e) => e.chatId
  }

  /** Sort key of `ORDER BY created_at DESC`. */
  function NewestFirst(h: HistoryItem): int { -ItemCreatedAt(h) }

  /** Messages come before events in `messages + events`. */
  function KindRank(h: HistoryItem): int { if h.MessageItem? then 0 else 1 }

  function MessageItems(ms: seq<Message>): (r: seq<HistoryItem>)
    ensures |r| == |ms| && forall i :: 0 <= i < |ms| ==> r[i] == MessageItem(ms[i])
  {
    seq(|ms|, i requires 0 <= i < |ms| => MessageItem(ms[i]))
  }

  function EventItems(es: seq<Event>): (r: seq<HistoryItem>)
    ensures |r| == |es| && forall i :: 0 <= i < |es| ==> r[i] == EventItem(es[i])
  {
    seq(|es|, i requires 0 <= i < |es| => EventItem(es[i]))
  }

  /** The two id/created_at projections of one chat, united: the chat's
      messages, then its events. Every item is a stored row of the chat. */
  function HistoryStream(messages: seq<Message>, events: seq<Event>, chatId: Id): (r: seq<HistoryItem>)
    ensures forall i :: 0 <= i < |r| ==> ItemChat(r[i]) == chatId
    ensures forall i :: 0 <= i < |r| ==>
      (r[i].MessageItem? && r[i].message in messages) || (r[i].EventItem? && r[i].event in events)
  {
    var ms := Filter(messages, (m: Message) => m.chatId == chatId);
    var es := Filter(events, (e: Event) => e.chatId == chatId);
    var r := MessageItems(ms) + EventItems(es);
    forall i | 0 <= i < |r|
      ensures ItemChat(r[i]) == chatId
      ensures (r[i].MessageItem? && r[i].message in messages) || (r[i].EventItem? && r[i].event in events)
    {
      if i < |ms| {
        assert r[i] == MessageItem(ms[i]) && ms[i] in ms;
      } else {
        assert r[i] == EventItem(es[i - |ms|]) && es[i - |ms|] in es;
      }
    }
    r
  }

  /** The united stream ordered newest first: a reordering of the stream.
      Ties keep stream order; the database leaves their order unspecified. */
  function Merged(messages: seq<Message>, events: seq<Event>, chatId: Id): (r: seq<HistoryItem>)
    ensures multiset(r) == multiset(HistoryStream(messages, events, chatId))
    ensures SortedBy(r, NewestFirst)
  {
    SortBy(HistoryStream(messages, events, chatId), NewestFirst)
  }

  /** The union query's OFFSET/LIMIT cut of the merged stream: `limit` items,
      or what is left of the stream after the first `offset` when that is
      fewer. */
  function HistoryWindow(messages: seq<Message>, events: seq<Event>, chatId: Id, offset: nat, limit: nat)
    : (r: seq<HistoryItem>)
    ensures var n := |HistoryStream(messages, events, chatId)|;
      |r| == Min(limit, n - Min(offset, n))
    ensures multiset(r) <= multiset(HistoryStream(messages, events, chatId))
  {
    var merged := Merged(messages, events, chatId);
    assert |merged| == |multiset(HistoryStream(messages, events, chatId))|;
    WindowInside(merged, offset, limit);
    Window(merged, offset, limit)
  }

  /** `history`: re-fetch the full rows whose ids fall in the window (messages,
      then events), and sort them oldest first with Python's stable sort. */
  function History(messages: seq<Message>, events: seq<Event>, chatId: Id, offset: nat, limit: nat)
    : (r: seq<HistoryItem>)
    ensures multiset(r) == multiset(Refetched(messages, events, HistoryWindow(messages, events, chatId, offset, limit)))
    ensures SortedBy(r, ItemCreatedAt)
  {
    SortBy(Refetched(messages, events, HistoryWindow(messages, events, chatId, offset, limit)), ItemCreatedAt)
  }

  /** What the schema guarantees about the two tables the history reads. */
  ghost predicate HistoryTablesOk(messages: seq<Message>, events: seq<Event>) {
    && KeyedBy(messages, MessageKey) && KeyedBy(events, EventKey)
    && forall m, e :: m in messages && e in events ==> m.id != e.id
  }

  lemma ItemsDistinct(ms: seq<Message>, es: seq<Event>)
    requires Distinct(ms) && Distinct(es)
    ensures Distinct(MessageItems(ms) + EventItems(es))
  {
    var s := MessageItems(ms) + EventItems(es);
    DistinctIndices(ms);
    DistinctIndices(es);
    forall i, j | 0 <= i < j < |s| ensures s[i] != s[j] {
      if j < |ms| {
        assert s[i] == MessageItem(ms[i]) && s[j] == MessageItem(ms[j]);
      } else if i >= |ms| {
        assert s[i] == EventItem(es[i - |ms|]) && s[j] == EventItem(es[j - |ms|]);
      } else {
        assert s[i].MessageItem? && s[j].EventItem?;
      }
    }
    DistinctIndices(s);
  }

  lemma InItems(ms: seq<Message>, es: seq<Event>, h: HistoryItem)
    ensures h in MessageItems(ms) + EventItems(es) <==>
      (h.MessageItem? && h.message in ms) || (h.EventItem? && h.event in es)
  {
    var s := MessageItems(ms) + EventItems(es);
    if h in s {
      var i :| 0 <= i < |s| && s[i] == h;
      if i < |ms| { assert s[i] == MessageItem(ms[i]); } else { assert s[i] == EventItem(es[i - |ms|]); }
    }
    if h.MessageItem? && h.message in ms {
      var i :| 0 <= i < |ms| && ms[i] == h.message;
      assert s[i] == h;
    }
    if h.EventItem? && h.event in es {
      var i :| 0 <= i < |es| && es[i] == h.event;
      assert s[|ms| + i] == h;
    }
  }

  lemma InStream(messages: seq<Message>, events: seq<Event>, chatId: Id, h: HistoryItem)
    ensures h in HistoryStream(messages, events, chatId) <==>
      ItemChat(h) == chatId
      && ((h.MessageItem? && h.message in messages) || (h.EventItem? && h.event in events))
  {
    InItems(Filter(messages, (m: Message) => m.chatId == chatId),
            Filter(events, (e: Event) => e.chatId == chatId), h);
  }

  lemma WindowInStream(messages: seq<Message>, events: seq<Event>, chatId: Id, offset: nat, limit: nat)
    ensures forall h :: h in HistoryWindow(messages, events, chatId, offset, limit) ==>
      h in HistoryStream(messages, events, chatId)
  {
    var sorted := Merged(messages, events, chatId);
    WindowInside(sorted, offset, limit);
    SortBySameElements(HistoryStream(messages, events, chatId), NewestFirst);
    forall h | h in HistoryWindow(messages, events, chatId, offset, limit)
      ensures h in HistoryStream(messages, events, chatId)
    {
      assert h in multiset(Window(sorted, offset, limit));
    }
  }

  /** The rows the second pass fetches: those whose id is in the window. */
  function Refetched(messages: seq<Message>, events: seq<Event>, window: seq<HistoryItem>): (r: seq<HistoryItem>)
    ensures forall i, j :: 0 <= i < j < |r| && r[i].EventItem? ==> r[j].EventItem?
  {
    var ids := set h | h in window :: ItemId(h);
    MessageItems(Filter(messages, (m: Message) => m.id in ids))
      + EventItems(Filter(events, (e: Event) => e.id in ids))
  }

  lemma RefetchedMember(messages: seq<Message>, events: seq<Event>, window: seq<HistoryItem>, h: HistoryItem)
    ensures h in Refetched(messages, events, window) <==>
      ((h.MessageItem? && h.message in messages) || (h.EventItem? && h.event in events))
      && exists w :: w in window && ItemId(w) == ItemId(h)
  {
    var ids := set h | h in window :: ItemId(h);
    InItems(Filter(messages, (m: Message) => m.id in ids), Filter(events, (e: Event) => e.id in ids), h);
  }

  /** Two rows of the history tables with the same id are the same row. */
  lemma SameIdSameItem(messages: seq<Message>, events: seq<Event>, h: HistoryItem, w: HistoryItem)
    requires HistoryTablesOk(messages, events)
    requires (h.MessageItem? && h.message in messages) || (h.EventItem? && h.event in events)
    requires (w.MessageItem? && w.message in messages) || (w.EventItem? && w.event in events)
    requires ItemId(h) == ItemId(w)
    ensures h == w
  {
    if h.MessageItem? && w.MessageItem? {
      assert MessageKey(h.message) == MessageKey(w.message);
    } else if h.EventItem? && w.EventItem? {
      assert EventKey(h.event) == EventKey(w.event);
    }
  }

  lemma WindowInHistory(messages: seq<Message>, events: seq<Event>, chatId: Id, offset: nat, limit: nat, h: HistoryItem)
    requires h in HistoryWindow(messages, events, chatId, offset, limit)
    ensures h in Refetched(messages, events, HistoryWindow(messages, events, chatId, offset, limit))
  {
    WindowInStream(messages, events, chatId, offset, limit);
    InStream(messages, events, chatId, h);
    RefetchedMember(messages, events, HistoryWindow(messages, events, chatId, offset, limit), h);
  }

  lemma HistoryInWindow(messages: seq<Message>, events: seq<Event>, chatId: Id, offset: nat, limit: nat, h: HistoryItem)
    requires HistoryTablesOk(messages, events)
    requires h in Refetched(messages, events, HistoryWindow(messages, events, chatId, offset, limit))
    ensures h in HistoryWindow(messages, events, chatId, offset, limit)
  {
    var window := HistoryWindow(messages, events, chatId, offset, limit);
    RefetchedMember(messages, events, window, h);
    var w :| w in window && ItemId(w) == ItemId(h);
    WindowInStream(messages, events, chatId, offset, limit);
    InStream(messages, events, chatId, w);
    SameIdSameItem(messages, events, h, w);
  }

  lemma HistoryMember(messages: seq<Message>, events: seq<Event>, chatId: Id, offset: nat, limit: nat, h: HistoryItem)
    requires HistoryTablesOk(messages, events)
    ensures h in History(messages, events, chatId, offset, limit) <==>
      h in HistoryWindow(messages, events, chatId, offset, limit)
  {
    var window := HistoryWindow(messages, events, chatId, offset, limit);
    var found := Refetched(messages, events, window);
    SortBySameElements(found, ItemCreatedAt);
    if h in window {
      WindowInHistory(messages, events, chatId, offset, limit, h);
    }
    if h in found {
      HistoryInWindow(messages, events, chatId, offset, limit, h);
    }
  }

  /** The history holds exactly the items of the window cut from the merged
      stream: OFFSET/LIMIT apply to messages and events together. */
  lemma HistoryIsWindow(messages: seq<Message>, events: seq<Event>, chatId: Id, offset: nat, limit: nat)
    requires HistoryTablesOk(messages, events)
    ensures forall h :: h in History(messages, events, chatId, offset, limit) <==>
      h in HistoryWindow(messages, events, chatId, offset, limit)
  {
    forall h ensures h in History(messages, events, chatId, offset, limit) <==>
      h in HistoryWindow(messages, events, chatId, offset, limit)
    {
      HistoryMember(messages, events, chatId, offset, limit, h);
    }
  }

  /** The history has as many items as the window: at most `limit`. */
  lemma HistoryLength(messages: seq<Message>, events: seq<Event>, chatId: Id, offset: nat, limit: nat)
    requires HistoryTablesOk(messages, events)
    ensures |History(messages, events, chatId, offset, limit)|
         == |HistoryWindow(messages, events, chatId, offset, limit)| <= limit
  {
    var window := HistoryWindow(messages, events, chatId, offset, limit);
    var ids := set h | h in window :: ItemId(h);
    var fm := Filter(messages, (m: Message) => m.id in ids);
    var fe := Filter(events, (e: Event) => e.id in ids);
    var cm := Filter(messages, (m: Message) => m.chatId == chatId);
    var ce := Filter(events, (e: Event) => e.chatId == chatId);
    KeyedSub(messages, fm, MessageKey);
    KeyedSub(events, fe, EventKey);
    KeyedSub(messages, cm, MessageKey);
    KeyedSub(events, ce, EventKey);
    ItemsDistinct(fm, fe);
    ItemsDistinct(cm, ce);
    var sorted := Merged(messages, events, chatId);
    DistinctSub(HistoryStream(messages, events, chatId), sorted);
    WindowInside(sorted, offset, limit);
    DistinctSub(sorted, window);
    var r := History(messages, events, chatId, offset, limit);
    DistinctSub(MessageItems(fm) + EventItems(fe), r);
    HistoryIsWindow(messages, events, chatId, offset, limit);
    SameElementsSameLength(r, window);
  }

  /** Every item of the history belongs to the requested chat. */
  lemma HistoryBelongsToChat(messages: seq<Message>, events: seq<Event>, chatId: Id, offset: nat, limit: nat)
    requires HistoryTablesOk(messages, events)
    ensures forall h :: h in History(messages, events, chatId, offset, limit) ==> ItemChat(h) == chatId
  {
    HistoryIsWindow(messages, events, chatId, offset, limit);
    WindowInStream(messages, events, chatId, offset, limit);
    forall h | h in History(messages, events, chatId, offset, limit) ensures ItemChat(h) == chatId {
      InStream(messages, events, chatId, h);
    }
  }

  /** The history is returned oldest first; among items created at the same
      instant every message precedes every event (stable sort of `messages + events`). */
  lemma HistoryOrder(messages: seq<Message>, events: seq<Event>, chatId: Id, offset: nat, limit: nat)
    ensures SortedBy(History(messages, events, chatId, offset, limit), ItemCreatedAt)
    ensures LexSortedBy(History(messages, events, chatId, offset, limit), ItemCreatedAt, KindRank)
  {
    var window := HistoryWindow(messages, events, chatId, offset, limit);
    var ids := set h | h in window :: ItemId(h);
    var found := Refetched(messages, events, window);
    var k := |Filter(messages, (m: Message) => m.id in ids)|;
    assert SortedBy(found, KindRank) by {
      forall i, j | 0 <= i < j < |found| ensures KindRank(found[i]) <= KindRank(found[j]) {
        if i < k { assert found[i].MessageItem?; } else { assert found[j].EventItem?; }
      }
    }
    SortByStable(found, ItemCreatedAt, KindRank);
  }

  /** With no offset the history keeps the newest items of the chat: anything
      left out is no newer than anything kept. */
  lemma HistoryKeepsNewest(messages: seq<Message>, events: seq<Event>, chatId: Id, limit: nat)
    requires HistoryTablesOk(messages, events)
    ensures forall x, y ::
      x in HistoryStream(messages, events, chatId) && x !in History(messages, events, chatId, 0, limit)
      && y in History(messages, events, chatId, 0, limit)
      ==> ItemCreatedAt(x) <= ItemCreatedAt(y)
  {
    var stream := HistoryStream(messages, events, chatId);
    var sorted := Merged(messages, events, chatId);
    var window := HistoryWindow(messages, events, chatId, 0, limit);
    HistoryIsWindow(messages, events, chatId, 0, limit);
    SortBySameElements(stream, NewestFirst);
    PrefixHoldsLeast(sorted, NewestFirst, limit);
    forall x, y | x in stream && x !in History(messages, events, chatId, 0, limit)
      && y in History(messages, events, chatId, 0, limit)
      ensures ItemCreatedAt(x) <= ItemCreatedAt(y)
    {
      assert x in sorted && x !in window && y in window;
      assert NewestFirst(y) <= NewestFirst(x);
    }
  }

  // -----------------------------------------------------------------------
  // Chat rows and membership pairs.

  /** The chat row with the given primary key, if any. */
  function FindChat(chats: seq<Chat>, chatId: Id): (r: Option<Chat>)
    ensures r.None? <==> chatId !in ChatIds(chats)
    ensures r.Some? ==> r.value in chats && r.value.id == chatId
  {
    FindBy(chats, (c: Chat) => c.id == chatId)
  }

  /** The rows `INSERT ... FROM SELECT` produces for one chat. */
  function Pairs(chatId: Id, userIds: set<Id>): (r: set<(Id, Id)>)
    ensures forall p :: p in r <==> p.0 == chatId && p.1 in userIds
  {
    set u | u in userIds :: (chatId, u)
  }

  /** The membership rows of `chatId` for the listed users: what
      `remove_members` deletes. */
  function Listed(members: set<(Id, Id)>, chatId: Id, memberIds: seq<Id>): (r: set<(Id, Id)>)
    ensures forall p :: p in r <==> p in members && p.0 == chatId && p.1 in memberIds
  {
    set p | p in members && p.0 == chatId && p.1 in memberIds
  }

  /** Deleting rows that are there shrinks the table by their number. */
  lemma RemovedCount(members: set<(Id, Id)>, gone: set<(Id, Id)>)
    requires gone <= members
    ensures |members - gone| == |members| - |gone|
  {
    assert members == (members - gone) + gone;
    assert (members - gone) !! gone;
  }

  /** The users `add_members` selects: the listed ids that name a user row,
      each once. */
  function ToAdd(users: seq<User>, userIds: seq<Id>): (r: set<Id>)
    ensures r <= UserIds(users)
    ensures forall u :: u in r <==> u in userIds && u in UserIds(users)
  {
    set u | u in userIds && u in UserIds(users)
  }

  /** Some selected user already has a row for this chat. */
  predicate AnyMember(members: set<(Id, Id)>, chatId: Id, userIds: set<Id>) {
    exists u :: u in userIds && (chatId, u) in members
  }

  /** `update_chat`'s patch: a field changes only when a value is supplied. */
  function Patched(c: Chat, title: Option<string>, isPrivate: Option<bool>): (r: Chat)
    ensures r.id == c.id && r.ownerId == c.ownerId
    ensures r.title == (if title.Some? then title.value else c.title)
    ensures r.isPrivate == (if isPrivate.Some? then isPrivate.value else c.isPrivate)
  {
    var c1 := if title.Some? then c.(title := title.value) else c;
    if isPrivate.Some? then c1.(isPrivate := isPrivate.value) else c1
  }

  lemma {:induction false} PairsCard(chatId: Id, userIds: set<Id>)
    ensures |Pairs(chatId, userIds)| == |userIds|
    decreases |userIds|
  {
    if userIds != {} {
      var u :| u in userIds;
      var rest := userIds - {u};
      PairsCard(chatId, rest);
      assert Pairs(chatId, userIds) == Pairs(chatId, rest) + {(chatId, u)};
    }
  }

  /** Without a clash the insert adds one new row per selected user. */
  lemma AddedRows(members: set<(Id, Id)>, chatId: Id, toAdd: set<Id>)
    requires !AnyMember(members, chatId, toAdd)
    ensures members !! Pairs(chatId, toAdd)
    ensures |members + Pairs(chatId, toAdd)| == |members| + |toAdd|
    ensures |toAdd| == 0 ==> members + Pairs(chatId, toAdd) == members
  {
    PairsCard(chatId, toAdd);
    if |toAdd| == 0 {
      assert Pairs(chatId, toAdd) == {};
    }
  }

  lemma CreateConsistent(t: Tables, c: Chat)
    requires Consistent(t)
    requires c.id == t.nextId && c.ownerId in UserIds(t.users)
    ensures Consistent(t.(chats := t.chats + [c], nextId := t.nextId + 1))
  {
    KeyedAppend(t.chats, c, ChatKey);
    assert ChatIds(t.chats) <= ChatIds(t.chats + [c]);
  }

  lemma AddMembersConsistent(t: Tables, chatId: Id, userIds: set<Id>)
    requires Consistent(t)
    requires userIds <= UserIds(t.users)
    requires userIds != {} ==> chatId in ChatIds(t.chats)
    ensures Consistent(t.(members := t.members + Pairs(chatId, userIds)))
  {
  }

  lemma RemoveMembersConsistent(t: Tables, gone: set<(Id, Id)>)
    requires Consistent(t)
    ensures Consistent(t.(members := t.members - gone))
  {
  }

  lemma ReplacedChatIds(chats: seq<Chat>, i: nat, c: Chat)
    requires i < |chats| && c.id == chats[i].id
    ensures ChatIds(chats[i := c]) == ChatIds(chats)
  {
    var r := chats[i := c];
    forall x | x in chats ensures x.id in ChatIds(r) {
      var j :| 0 <= j < |chats| && chats[j] == x;
      assert r[j] in r;
    }
  }

  /** Replacing one chat row by a copy with the same id and owner keeps
      every key and reference. */
  lemma ReplaceChatConsistent(t: Tables, i: nat, c: Chat)
    requires Consistent(t) && i < |t.chats| && c.id == t.chats[i].id && c.ownerId == t.chats[i].ownerId
    ensures Consistent(t.(chats := t.chats[i := c]))
  {
    var r := t.chats[i := c];
    KeyedReplace(t.chats, i, c, ChatKey);
    ReplacedChatIds(t.chats, i, c);
    forall x | x in r ensures x.ownerId in UserIds(t.users) {
      var j :| 0 <= j < |r| && r[j] == x;
      if j != i { assert x == t.chats[j]; }
    }
    var after := t.(chats := r);
    assert KeysOk(after);
    assert IdsFresh(after);
    assert RefsOk(after);
  }

  lemma UpdateConsistent(t: Tables, chatId: Id, c: Chat)
    requires Consistent(t) && FindChat(t.chats, chatId).Some?
    requires c.id == chatId && c.ownerId == FindChat(t.chats, chatId).value.ownerId
    ensures Consistent(t.(chats := ReplaceKeyed(t.chats, ChatKey, chatId, c)))
  {
    var i :| 0 <= i < |t.chats| && t.chats[i] == FindChat(t.chats, chatId).value;
    ReplaceKeyedAt(t.chats, ChatKey, chatId, c, i);
    ReplaceChatConsistent(t, i, c);
  }

  /** The tables after `DELETE FROM chats WHERE chat_id = ...` and its
      ON DELETE CASCADE on memberships, messages and events. */
  function DeleteChat(t: Tables, chatId: Id): (r: Tables)
    ensures chatId !in ChatIds(r.chats) && MembersOf(r.members, chatId) == {}
    ensures forall c :: c in r.chats <==> c in t.chats && c.id != chatId
    ensures forall p :: p in r.members <==> p in t.members && p.0 != chatId
    ensures forall m :: m in r.messages <==> m in t.messages && m.chatId != chatId
    ensures forall e :: e in r.events <==> e in t.events && e.chatId != chatId
    ensures r.users == t.users && r.nextId == t.nextId
  {
    var members := set p | p in t.members && p.0 != chatId;
    t.(chats := Remove(t.chats, (c: Chat) => c.id == chatId),
       members := members,
       messages := Remove(t.messages, (m: Message) => m.chatId == chatId),
       events := Remove(t.events, (e: Event) => e.chatId == chatId))
  }

  /** The row count `DELETE FROM chats WHERE chat_id = ...` reports. */
  function DeletedCount(chats: seq<Chat>, chatId: Id): (n: nat)
    requires KeyedBy(chats, ChatKey)
    ensures n == if chatId in ChatIds(chats) then 1 else 0
  {
    var matches := Filter(chats, (c: Chat) => c.id == chatId);
    AtMostOneWithKey(chats, ChatKey, (c: Chat) => c.id == chatId, chatId);
    assert chatId in ChatIds(chats) ==> |matches| >= 1 by {
      if chatId in ChatIds(chats) {
        var c :| c in chats && c.id == chatId;
        assert c in matches;
      }
    }
    assert |matches| > 0 ==> chatId in ChatIds(chats) by {
      if |matches| > 0 {
        var c := matches[0];
        assert c in chats && c.id == chatId;
      }
    }
    |matches|
  }

  lemma ChatIdsAfterDelete(t: Tables, chatId: Id)
    ensures ChatIds(DeleteChat(t, chatId).chats) == ChatIds(t.chats) - {chatId}
  {
    var r := DeleteChat(t, chatId);
    forall c | c in t.chats && c.id != chatId ensures c.id in ChatIds(r.chats) {
      assert c in r.chats;
    }
  }

  lemma DeleteKeysOk(t: Tables, chatId: Id)
    requires KeysOk(t)
    ensures KeysOk(DeleteChat(t, chatId))
  {
    var r := DeleteChat(t, chatId);
    KeyedSub(t.chats, r.chats, ChatKey);
    KeyedSub(t.messages, r.messages, MessageKey);
    KeyedSub(t.events, r.events, EventKey);
  }

  lemma DeleteKeepsOwners(t: Tables, chatId: Id)
    requires RefsOk(t)
    ensures forall c :: c in DeleteChat(t, chatId).chats ==> c.ownerId in UserIds(t.users)
  {
  }

  lemma DeleteKeepsMemberRefs(t: Tables, chatId: Id)
    requires RefsOk(t)
    ensures var r := DeleteChat(t, chatId);
      forall p :: p in r.members ==> p.0 in ChatIds(r.chats) && p.1 in UserIds(t.users)
  {
    ChatIdsAfterDelete(t, chatId);
  }

  lemma DeleteKeepsMessageRefs(t: Tables, chatId: Id)
    requires RefsOk(t)
    ensures var r := DeleteChat(t, chatId);
      forall m :: m in r.messages ==> m.chatId in ChatIds(r.chats) && m.userId in UserIds(t.users)
  {
    ChatIdsAfterDelete(t, chatId);
  }

  lemma DeleteKeepsEventRefs(t: Tables, chatId: Id)
    requires RefsOk(t)
    ensures var r := DeleteChat(t, chatId);
      forall e :: e in r.events ==> EventRefsOk(r.chats, t.users, e.chatId, e.userId, e.alteredUserId)
  {
    var r := DeleteChat(t, chatId);
    ChatIdsAfterDelete(t, chatId);
    forall e | e in r.events ensures EventRefsOk(r.chats, t.users, e.chatId, e.userId, e.alteredUserId) {
      assert e in t.events && e.chatId != chatId;
      assert EventRefsOk(t.chats, t.users, e.chatId, e.userId, e.alteredUserId);
    }
  }

  lemma DeleteRefsOk(t: Tables, chatId: Id)
    requires RefsOk(t)
    ensures RefsOk(DeleteChat(t, chatId))
  {
    DeleteKeepsOwners(t, chatId);
    DeleteKeepsMemberRefs(t, chatId);
    DeleteKeepsMessageRefs(t, chatId);
    DeleteKeepsEventRefs(t, chatId);
  }

  lemma DeleteConsistent(t: Tables, chatId: Id)
    requires Consistent(t)
    ensures Consistent(DeleteChat(t, chatId))
  {
    DeleteKeysOk(t, chatId);
    DeleteRefsOk(t, chatId);
  }

  /** The public chats (`filter_by(is_private=False)`), in table order. */
  function PublicChats(chats: seq<Chat>): (r: seq<Chat>)
    ensures forall c :: c in r <==> c in chats && !c.isPrivate
  {
    Filter(chats, (c: Chat) => !c.isPrivate)
  }

  /** `get_multi`: public chats only, ordered by `key` (descending when
      `desc`), then OFFSET/LIMIT. The page holds `limit` chats, or what is
      left after the first `offset` when that is fewer. */
  function PublicPage(chats: seq<Chat>, key: Chat -> int, desc: bool, offset: nat, limit: nat): (r: seq<Chat>)
    ensures var n := |PublicChats(chats)|;
      |r| == Min(limit, n - Min(offset, n))
    ensures multiset(r) <= multiset(PublicChats(chats))
    ensures forall c :: c in r ==> c in chats && !c.isPrivate
    ensures OrderedBy(r, key, desc)
  {
    var public := PublicChats(chats);
    var ordered := OrderBy(public, key, desc);
    assert |ordered| == |multiset(public)|;
    WindowOrdered(ordered, (a: Chat, b: Chat) => Precedes(a, b, key, desc), offset, limit);
    WindowInside(ordered, offset, limit);
    var r := Window(ordered, offset, limit);
    forall c | c in r ensures c in chats && !c.isPrivate {
      assert c in multiset(public);
    }
    r
  }

  /** For any offset the page is the OFFSET/LIMIT window of an ordering of
      the public chats by `key`: the `offset` chats it skips come no later in
      that order than any chat returned, and the chats after the window no
      earlier. */
  lemma PublicPageIsWindow(chats: seq<Chat>, key: Chat -> int, desc: bool, offset: nat, limit: nat)
    ensures exists s: seq<Chat> ::
      && multiset(s) == multiset(PublicChats(chats))
      && OrderedBy(s, key, desc)
      && PublicPage(chats, key, desc, offset, limit) == Window(s, offset, limit)
      && (forall x: Chat, y: Chat :: x in Window(s, 0, offset) && y in Window(s, offset, limit) ==>
            Precedes(x, y, key, desc))
      && (forall x: Chat, y: Chat :: x in Window(s, offset, limit) && y in Window(s, offset + limit, |s|) ==>
            Precedes(x, y, key, desc))
  {
    var s := OrderBy(PublicChats(chats), key, desc);
    WindowSplit(s, key, desc, offset, limit);
    assert PublicPage(chats, key, desc, offset, limit) == Window(s, offset, limit);
    assert multiset(s) == multiset(PublicChats(chats)) && OrderedBy(s, key, desc);
  }

  /** `ChatRepository`: statements over the shared session. */
  class ChatRepository {
    const db: Database

    constructor (db: Database)
      ensures this.db == db
    {
      this.db := db;
    }

    /** `create`: insert a chat row; the owner foreign key must hold. */
    method Create(title: string, isPrivate: bool, ownerId: Id) returns (r: Result<Chat>)
      requires db.Valid()
      modifies db
      ensures db.Valid()
      ensures ownerId !in UserIds(old(db.users)) ==>
        r == Err(IntegrityError) && db.State() == old(db.State())
      ensures ownerId in UserIds(old(db.users)) ==>
        && r == Ok(Chat(old(db.nextId), title, isPrivate, ownerId))
        && r.value.id !in ChatIds(old(db.chats))
        && db.State() == old(db.State()).(chats := old(db.chats) + [r.value], nextId := old(db.nextId) + 1)
    {
      if ownerId !in UserIds(db.users) {
        return Err(IntegrityError);
      }
      var c := Chat(db.nextId, title, isPrivate, ownerId);
      ghost var after := db.State().(chats := db.chats + [c], nextId := db.nextId + 1);
      CreateConsistent(db.State(), c);
      db.chats := db.chats + [c];
      db.nextId := db.nextId + 1;
      assert db.State() == after;
      r := Ok(c);
    }

    /** `get_single(chat_id=...)`: `scalar_one` raises when no row matches. */
    function GetSingle(chatId: Id): (r: Result<Chat>)
      reads db
      ensures r.Err? <==> chatId !in ChatIds(db.chats)
      ensures r.Err? ==> r.error == NoResultFound
      ensures r.Ok? ==> r.value in db.chats && r.value.id == chatId
    {
      match FindChat(db.chats, chatId)
      case None => Err(NoResultFound)
      case Some(c) => Ok(c)
    }

    /** `get_members`: the ids of the chat's members; the chat must exist. */
    function GetMembers(chatId: Id): (r: Result<set<Id>>)
      reads db
      ensures r.Err? <==> chatId !in ChatIds(db.chats)
      ensures r.Err? ==> r.error == NoResultFound
      ensures r.Ok? ==> forall u :: u in r.value <==> (chatId, u) in db.members
    {
      if chatId in ChatIds(db.chats) then Ok(MembersOf(db.members, chatId)) else Err(NoResultFound)
    }

    /** `add_members`: one row per distinct listed id that names a user. The
        statement fails as a whole on a foreign-key violation (unknown chat)
        or a primary-key violation (a selected user is already a member). */
    method AddMembers(chatId: Id, userIds: seq<Id>) returns (r: Result<nat>)
      requires db.Valid()
      modifies db
      ensures db.Valid()
      ensures r.Err? <==> var toAdd := ToAdd(old(db.users), userIds);
        (toAdd != {} && chatId !in ChatIds(old(db.chats))) || AnyMember(old(db.members), chatId, toAdd)
      ensures r.Err? ==> r.error == IntegrityError && db.State() == old(db.State())
      ensures r.Ok? ==>
        && r.value == |ToAdd(old(db.users), userIds)|
        && db.State() == old(db.State()).(members := old(db.members) + Pairs(chatId, ToAdd(old(db.users), userIds)))
        && |db.members| == |old(db.members)| + r.value
      ensures r == Ok(0) ==> db.State() == old(db.State())
    {
      var toAdd := ToAdd(db.users, userIds);
      if toAdd != {} && chatId !in ChatIds(db.chats) {
        return Err(IntegrityError);
      }
      if AnyMember(db.members, chatId, toAdd) {
        return Err(IntegrityError);
      }
      ghost var after := db.State().(members := db.members + Pairs(chatId, toAdd));
      AddMembersConsistent(db.State(), chatId, toAdd);
      AddedRows(db.members, chatId, toAdd);
      db.members := db.members + Pairs(chatId, toAdd);
      assert db.State() == after;
      r := Ok(|toAdd|);
    }

    /** `remove_members`: delete this chat's rows for the listed users and
        report how many went. */
    method RemoveMembers(chatId: Id, memberIds: seq<Id>) returns (n: nat)
      requires db.Valid()
      modifies db
      ensures db.Valid()
      ensures db.State() == old(db.State()).(members := old(db.members) - Listed(old(db.members), chatId, memberIds))
      ensures n == |Listed(old(db.members), chatId, memberIds)| == |old(db.members)| - |db.members|
      ensures n == 0 ==> db.State() == old(db.State())
    {
      var gone := Listed(db.members, chatId, memberIds);
      RemovedCount(db.members, gone);
      if |gone| == 0 {
        assert db.members - gone == db.members;
      }
      ghost var after := db.State().(members := db.members - gone);
      RemoveMembersConsistent(db.State(), gone);
      db.members := db.members - gone;
      assert db.State() == after;
      n := |gone|;
    }

    /** `update`: patch the chat row; `scalar_one` raises when no row matched. */
    method Update(chatId: Id, title: Option<string>, isPrivate: Option<bool>) returns (r: Result<Chat>)
      requires db.Valid()
      modifies db
      ensures db.Valid()
      ensures chatId !in ChatIds(old(db.chats)) ==>
        r == Err(NoResultFound) && db.State() == old(db.State())
      ensures chatId in ChatIds(old(db.chats)) ==>
        && r == Ok(Patched(FindChat(old(db.chats), chatId).value, title, isPrivate))
        && db.State() == old(db.State()).(chats := ReplaceKeyed(old(db.chats), ChatKey, chatId, r.value))
    {
      var found := FindChat(db.chats, chatId);
      if found.None? {
        return Err(NoResultFound);
      }
      var c := Patched(found.value, title, isPrivate);
      ghost var after := db.State().(chats := ReplaceKeyed(db.chats, ChatKey, chatId, c));
      UpdateConsistent(db.State(), chatId, c);
      db.chats := ReplaceKeyed(db.chats, ChatKey, chatId, c);
      assert db.State() == after;
      r := Ok(c);
    }

    /** `delete`: remove the chat and, by cascade, everything that points at it;
        the row count is 1 when the chat existed. */
    method Delete(chatId: Id) returns (n: nat)
      requires db.Valid()
      modifies db
      ensures db.Valid()
      ensures db.State() == DeleteChat(old(db.State()), chatId)
      ensures n == (if chatId in ChatIds(old(db.chats)) then 1 else 0)
    {
      var t := db.State();
      DeleteConsistent(t, chatId);
      n := DeletedCount(t.chats, chatId);
      var u := DeleteChat(t, chatId);
      db.chats, db.members, db.messages, db.events := u.chats, u.members, u.messages, u.events;
      assert db.State() == u;
    }
  }
}
