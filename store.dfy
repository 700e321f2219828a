/** The relational store: one class holding every table the core touches.
    Rows are datatypes; a table is a sequence in insertion order, the
    membership table is a set of (chat_id, user_id) pairs because its primary
    key is that pair (server/src/chats/models.py:30-40). */
module Store {
  import opened Common
  import opened Seqs

  datatype User = User(
    id: Id, username: string, hashedPassword: string, subscribersCount: int, isAdmin: bool)

  datatype Chat = Chat(id: Id, title: string, isPrivate: bool, ownerId: Id)

  datatype Message = Message(
    id: Id, content: string, createdAt: int, chatId: Id, userId: Id)

  /** The five event kinds of server/src/events/enums.py. */
  datatype EventType = Created | Joined | Leaved | Added | Removed

  datatype Event = Event(
    id: Id, eventType: EventType, createdAt: int, userId: Id, alteredUserId: Option<Id>, chatId: Id)

  function UserKey(u: User): nat { u.id }
  function ChatKey(c: Chat): nat { c.id }
  function MessageKey(m: Message): nat { m.id }
  function EventKey(e: Event): nat { e.id }

  function UserIds(users: seq<User>): set<Id> { set u | u in users :: u.id }
  function ChatIds(chats: seq<Chat>): set<Id> { set c | c in chats :: c.id }
  function MessageIds(messages: seq<Message>): set<Id> { set m | m in messages :: m.id }
  function EventIds(events: seq<Event>): set<Id> { set e | e in events :: e.id }

  /** The members of one chat, read off the membership pairs. */
  function MembersOf(members: set<(Id, Id)>, chatId: Id): set<Id> {
    set p | p in members && p.0 == chatId :: p.1
  }

  /** The foreign keys an event row carries are all satisfied. */
  predicate EventRefsOk(chats: seq<Chat>, users: seq<User>, chatId: Id, userId: Id, altered: Option<Id>) {
    chatId in ChatIds(chats) && userId in UserIds(users) && (altered.Some? ==> altered.value in UserIds(users))
  }

  /** A snapshot of every table: what the specifications of the operations
      are written over. */
  datatype Tables = Tables(
    users: seq<User>, chats: seq<Chat>, members: set<(Id, Id)>,
    messages: seq<Message>, events: seq<Event>, nextId: nat)

  /** Primary keys and the unique username. */
  ghost predicate KeysOk(t: Tables) {
    && KeyedBy(t.users, UserKey) && KeyedBy(t.chats, ChatKey)
    && KeyedBy(t.messages, MessageKey) && KeyedBy(t.events, EventKey)
    && (forall u, v :: u in t.users && v in t.users && u.username == v.username ==> u == v)
  }

  /** Every id handed out so far is below the counter; messages and events,
      which share the history's id column, never share an id. */
  ghost predicate IdsFresh(t: Tables) {
    && (forall u :: u in t.users ==> u.id < t.nextId)
    && (forall c :: c in t.chats ==> c.id < t.nextId)
    && (forall m :: m in t.messages ==> m.id < t.nextId)
    && (forall e :: e in t.events ==> e.id < t.nextId)
    && (forall m, e :: m in t.messages && e in t.events ==> m.id != e.id)
  }

  /** Every foreign key of the schema holds. */
  ghost predicate RefsOk(t: Tables) {
    && (forall c :: c in t.chats ==> c.ownerId in UserIds(t.users))
    && (forall p :: p in t.members ==> p.0 in ChatIds(t.chats) && p.1 in UserIds(t.users))
    && (forall m :: m in t.messages ==> m.chatId in ChatIds(t.chats) && m.userId in UserIds(t.users))
    && (forall e :: e in t.events ==> EventRefsOk(t.chats, t.users, e.chatId, e.userId, e.alteredUserId))
  }

  ghost predicate Consistent(t: Tables) {
    KeysOk(t) && IdsFresh(t) && RefsOk(t)
  }

  /** The database session every repository shares. */
  class Database {
    var users: seq<User>
    var chats: seq<Chat>
    var members: set<(Id, Id)>
    var messages: seq<Message>
    var events: seq<Event>
    /** Next identifier to hand out (the model's stand-in for uuid4). */
    var nextId: nat

    function State(): Tables
      reads this
    {
      Tables(users, chats, members, messages, events, nextId)
    }

    ghost predicate Valid()
      reads this
    {
      Consistent(State())
    }

    constructor ()
      ensures Valid()
      ensures State() == Tables([], [], {}, [], [], 0)
    {
      users, chats, members, messages, events := [], [], {}, [], [];
      nextId := 0;
    }
  }
}
