# Nerdex server core in Dafny

A model of the stateful core of the Nerdex social backend (FastAPI over
SQLAlchemy/PostgreSQL), with proofs about it.

- **Chats.** The membership state machine covers create, join, leave, add
  members, remove members, update and delete. It includes the owner checks,
  the private-chat gate for non-admins, the ban on naming oneself, the
  row-count based errors, and the deletion of a chat its last member leaves.
- **Routes.** The chat routes append to the event log after each membership
  change.
- **Chat history.** One chat's messages and events are merged into a single
  stream, windowed by offset and limit, and re-sorted oldest first.
- **Messages.** Author-only delete and update, delete of a whole chat's
  messages, paged and searched listings, and the `content_ellipsis`
  preview.
- **Users.** Creating, looking up and renaming accounts; the
  subscribe/unsubscribe guards; the subscriptions listing.
- **Tokens.** The claims a token carries, and the decision each token
  dependency makes from a decoded claim set: accept, 401, 403, or nobody.
- **Admin panel.** The login session lifecycle.

All tables live in one `Store.Database` object, and every repository and
service shares it:
- the users, chats, messages and events tables are sequences of row
  datatypes in insertion order;
- the membership table is a set of `(chat_id, user_id)` pairs, because that
  pair is its primary key;
- one counter hands out fresh ids where the source uses `uuid4`.

`Store.Consistent` states what the schema enforces:
- primary keys;
- the unique username;
- every foreign key;
- ids below the counter;
- no id shared between a message and an event.

Every state-changing method keeps `Consistent`. Each one states its whole
new state as an update of `old(db.State())`.

Each source file is its own module:

| module | models |
|---|---|
| `ChatsRepository` | `server/src/chats/repository.py` |
| `ChatsService` | `server/src/chats/service.py` |
| `ChatsRouter` | `server/src/chats/router.py` |
| `MessagesRepository` | `server/src/messages/repository.py` |
| `MessagesService` | `server/src/messages/service.py` |
| `MessagesModels` | `server/src/messages/models.py` |
| `EventsRepository` | `server/src/events/repository.py` |
| `UsersService` | `server/src/users/service.py` |
| `AuthUtils` | `server/src/auth/utils.py` |
| `AuthDependencies` | `server/src/auth/dependencies.py` |
| `AdminAuth` | `server/src/admin/auth.py`, `repository.py` and `models.py` |

Generic sequence helpers live in `Seqs`:
- filter and count;
- an offset/limit window;
- reverse;
- a stable insertion sort, with its sortedness, permutation and stability
  lemmas;
- keyed look-up and replacement.

Times are integer seconds. Three things are parameters, because their
internals are not part of the model:
- the password hash and `validate_password`;
- token decoding (`decode(token)` is the claim set of a token that checks
  out, None otherwise);
- the clock (`now`).

## Model

| member | source | states |
|---|---|---|
| Store.Database.constructor | server/src/chats/models.py:30-40 | An empty database is consistent: no rows, counter at 0 |
| ChatsRepository.FindChat | server/src/chats/repository.py:31-41 | The chat row with that key, or None exactly when no row has it |
| ChatsRepository.ChatRepository.GetSingle | server/src/chats/repository.py:31-41 | NoResultFound iff the chat is missing; otherwise the stored row with that id |
| ChatsRepository.ChatRepository.GetMembers | server/src/chats/repository.py:90-102 | NoResultFound iff the chat is missing; otherwise exactly the users with a membership row for the chat |
| ChatsRepository.ChatRepository.Create | server/src/chats/repository.py:18-29 | IntegrityError with nothing changed when the owner is no user; otherwise one chat row with a fresh id is appended |
| ChatsRepository.CreateConsistent | server/src/chats/repository.py:18-29 | Appending a chat with a fresh id and an existing owner keeps every key and foreign key |
| ChatsRepository.Pairs | server/src/chats/repository.py:127-144 | The rows `INSERT … FROM SELECT` produces: exactly the pairs of the chat with the selected users |
| ChatsRepository.PairsCard | server/src/chats/repository.py:127-144 | One row per selected user: the number of pairs equals the number of users |
| ChatsRepository.ToAdd | server/src/chats/repository.py:127-133 | The selected users are exactly the listed ids that name a user; duplicates and unknown ids are dropped |
| ChatsRepository.AddedRows | server/src/chats/repository.py:122-144 | Rows for users who are not yet members are all new, so the insert grows the table by exactly their number, and by nothing when no user is selected |
| ChatsRepository.ChatRepository.AddMembers | server/src/chats/repository.py:122-144 | The insert fails as a whole, changing nothing, on an unknown chat or on any selected user who is already a member. Otherwise exactly the selected pairs are added, the table grows by their number, and that number is the count; a count of 0 means nothing changed |
| ChatsRepository.Listed | server/src/chats/repository.py:146-159 | The rows remove-members deletes: exactly this chat's rows for the listed users |
| ChatsRepository.RemovedCount | server/src/chats/repository.py:146-159 | Deleting rows that are present shrinks the table by their number, which is the row count the delete reports |
| ChatsRepository.AddMembersConsistent | server/src/chats/models.py:30-40 | Adding pairs of existing users to an existing chat keeps the membership foreign keys |
| ChatsRepository.ChatRepository.RemoveMembers | server/src/chats/repository.py:146-159 | Exactly this chat's rows for the listed users go and every other row stays; the count is how many went, which is how much the table shrank; a count of 0 means nothing changed |
| ChatsRepository.Patched | server/src/chats/repository.py:161-175 | Title and privacy change only when supplied; id and owner never change |
| ChatsRepository.ChatRepository.Update | server/src/chats/repository.py:161-175 | NoResultFound with nothing changed for a missing chat; otherwise the row is replaced in place by its patch |
| ChatsRepository.ReplacedChatIds | server/src/chats/repository.py:161-175 | Replacing a row by one with the same key keeps the set of chat ids |
| ChatsRepository.UpdateConsistent | server/src/chats/repository.py:161-175 | Patching a chat keeps the database consistent |
| ChatsRepository.ReplaceChatConsistent | server/src/chats/repository.py:161-175 | Replacing a chat row by one with the same id and owner keeps every key and foreign key |
| ChatsRepository.DeleteChat | server/src/chats/models.py:19-21 | The chat row goes, and by ON DELETE CASCADE so do all its memberships, messages and events; nothing else changes |
| ChatsRepository.DeletedCount | server/src/chats/repository.py:177-188 | The row count of the delete is 1 when the chat existed and 0 otherwise |
| ChatsRepository.ChatIdsAfterDelete | server/src/chats/repository.py:177-188 | After the delete the chat ids are the old ones minus the deleted one |
| ChatsRepository.DeleteKeysOk | server/src/chats/repository.py:177-188 | The cascade delete keeps every primary key and the unique username |
| ChatsRepository.DeleteRefsOk | server/src/events/models.py:20-38 | After the cascade no row points at the deleted chat, so every foreign key still holds |
| ChatsRepository.DeleteConsistent | server/src/messages/models.py:20-23 | The cascade delete keeps the database consistent |
| ChatsRepository.ChatRepository.Delete | server/src/chats/repository.py:177-188 | The new state is the cascade delete of the old; the count is 1 iff the chat existed |
| ChatsRepository.PublicChats | server/src/chats/repository.py:114 | A chat is kept iff it is stored and not private |
| ChatsRepository.PublicPage | server/src/chats/repository.py:104-120 | Exactly `limit` chats, or what is left after skipping `offset` when that is fewer; drawn from the public chats without repetition, all stored and public, ordered by the key in the requested direction |
| ChatsRepository.PublicPageIsWindow | server/src/chats/repository.py:112-120 | For every offset the page is the OFFSET/LIMIT window of an ordering of all public chats by the key; the skipped chats all come before the page in that order and the remaining ones after it |
| ChatsRepository.HistoryStream | server/src/chats/repository.py:50-58 | Every item of the united projections belongs to the chat and is a stored message or event |
| ChatsRepository.Merged | server/src/chats/repository.py:60-66 | The union ordered by `created_at DESC`: the same items, newest first |
| ChatsRepository.HistoryWindow | server/src/chats/repository.py:60-69 | Exactly `limit` items of the merged stream, or what is left after skipping `offset` when that is fewer, drawn from the stream without repetition |
| ChatsRepository.Refetched | server/src/chats/repository.py:71-87 | The second pass lists the fetched messages before the fetched events (`messages + events`) |
| ChatsRepository.History | server/src/chats/repository.py:43-88 | The history holds the refetched rows of the window and is sorted by `created_at`, oldest first |
| ChatsRepository.MessageItems | server/src/chats/repository.py:50-53 | The message projection of the union, one item per message, in order |
| ChatsRepository.EventItems | server/src/chats/repository.py:55-58 | The event projection of the union, one item per event, in order |
| ChatsRepository.ItemsDistinct | server/src/chats/repository.py:50-69 | The united stream repeats no row when neither table does |
| ChatsRepository.InItems | server/src/chats/repository.py:50-69 | An item is in the union iff it is a stored message or a stored event |
| ChatsRepository.InStream | server/src/chats/repository.py:50-69 | The stream holds exactly the chat's messages and events |
| ChatsRepository.WindowInStream | server/src/chats/repository.py:60-69 | Every item of the OFFSET/LIMIT window comes from the chat's stream |
| ChatsRepository.RefetchedMember | server/src/chats/repository.py:71-86 | The second pass fetches exactly the stored rows whose id is in the window |
| ChatsRepository.SameIdSameItem | server/src/chats/repository.py:71-86 | Because ids are keys and never shared between messages and events, refetching by id returns the very row of the window |
| ChatsRepository.WindowInHistory | server/src/chats/repository.py:71-88 | Every item of the window is in the history |
| ChatsRepository.HistoryInWindow | server/src/chats/repository.py:71-88 | Every item of the history is in the window |
| ChatsRepository.HistoryMember | server/src/chats/repository.py:43-88 | Membership in the history is membership in the window |
| ChatsRepository.HistoryIsWindow | server/src/chats/repository.py:60-69 | Offset and limit cut the merged, newest-first stream of messages and events together, not each kind separately |
| ChatsRepository.HistoryLength | server/src/chats/repository.py:50-69 | The history has as many items as the window, at most `limit` |
| ChatsRepository.HistoryBelongsToChat | server/src/chats/repository.py:50-69 | Every item of the history belongs to the requested chat |
| ChatsRepository.HistoryOrder | server/src/chats/repository.py:87-88 | The history is sorted oldest first; among items created at the same instant every message precedes every event |
| ChatsRepository.HistoryKeepsNewest | server/src/chats/repository.py:60-69 | With no offset, an item of the chat that was left out is no newer than any item returned |
| ChatsService.CheckChatExistsAndUserIsOwner | server/src/chats/service.py:160-174 | ChatNotFound iff the chat is missing; PermissionDenied iff it exists with another owner; Ok iff the caller owns it |
| ChatsService.JoinGateOpen | server/src/chats/service.py:115-126 | Admins always pass the private-chat gate; a non-admin never does for a missing chat |
| ChatsService.AddSucceeds | server/src/chats/service.py:176-199 | Success needs a caller absent from the list and some listed existing user who is not yet a member |
| ChatsService.RemoveSucceeds | server/src/chats/service.py:201-221 | On consistent tables, success needs a caller absent from the list and some listed existing user |
| ChatsService.ChatService.CreateChat | server/src/chats/service.py:30-51 | The caller owns the new chat. The chat row goes in first, then one membership row each for the caller and the listed users that exist. The chat's members are exactly those |
| ChatsService.NewChatHasNoMembers | server/src/chats/service.py:35-47 | A chat that does not exist yet has no membership rows |
| ChatsService.FreshChatMembers | server/src/chats/service.py:35-47 | Inserting into a new chat cannot clash, and leaves the caller plus the existing listed users as its members |
| ChatsService.ChatService.GetChat | server/src/chats/service.py:53-62 | ChatNotFound iff the chat is missing; otherwise the stored row |
| ChatsService.ChatService.GetChatMembers | server/src/chats/service.py:64-73 | ChatNotFound iff the chat is missing; otherwise exactly its members |
| ChatsService.JoinRows | server/src/chats/service.py:127-140 | Joining inserts at most the caller's own row, and clashes iff the caller already is a member |
| ChatsService.ChatService.JoinChat | server/src/chats/service.py:115-140 | A non-admin gets ChatNotFound for a missing chat and PermissionDenied for a private one; admins skip both. A key clash is AlreadyInChat. The result is true iff exactly the caller's row was inserted. Any error leaves the tables unchanged |
| ChatsService.LeaveRows | server/src/chats/service.py:148-158 | Leaving removes exactly the caller's row; a member's leave drops one row and the caller from the members |
| ChatsService.RemovedOne | server/src/chats/service.py:148-154 | Removing a one-user list removes exactly the caller's pair, and the count is 1 iff that pair was there, 0 otherwise |
| ChatsService.DeleteAfterLeave | server/src/chats/service.py:156-158 | Deleting the chat after the leave equals deleting it before: the cascade takes every row of the chat |
| ChatsService.ChatService.LeaveChat | server/src/chats/service.py:142-158 | FailedToLeaveChat, with nothing changed, unless exactly one row went. After a leave the chat is deleted iff the caller was its only member; otherwise only the caller's row is gone |
| ChatsService.AddOutcome | server/src/chats/service.py:176-199 | The ownership error passes through first. A list naming the caller is CantAddMembers, as is a clashing insert or one that adds no row. Success iff AddSucceeds, and then the count is the number of selected users, at least one |
| ChatsService.RemoveOutcome | server/src/chats/service.py:201-221 | The ownership error passes through first. A list naming the caller is CantAddMembers, as written. No listed member is CantRemoveMembers. Success iff RemoveSucceeds, and then the count is the number of rows removed, at least one |
| ChatsService.ChatService.AddMembersToChat | server/src/chats/service.py:176-199 | The answer is AddOutcome of the tables before the call. Every error changes nothing. Success adds exactly the pairs of the chat with the selected users |
| ChatsService.ChatService.RemoveMembersFromChat | server/src/chats/service.py:201-221 | The answer is RemoveOutcome of the tables before the call. Every error changes nothing. Success removes exactly this chat's rows for the listed users |
| ChatsService.ChatService.UpdateChat | server/src/chats/service.py:223-235 | Owner only; otherwise the row is replaced by its patch, so only supplied fields change |
| ChatsService.ChatService.DeleteChatAsOwner | server/src/chats/service.py:237-244 | Owner only; otherwise the new state is the cascade delete |
| ChatsRouter.EventsFor | server/src/chats/router.py:194-208 | The loop writes one event per requested id |
| ChatsRouter.EventsForAt | server/src/chats/router.py:194-208 | Event `i` of the loop is by the caller, against the chat, for the `i`-th requested id as altered user, in order |
| ChatsRouter.EventsForStep | server/src/chats/router.py:194-208 | One more loop round appends exactly one more event |
| ChatsRouter.Appended | server/src/chats/router.py:194-208 | The loop touches only the event log and the id counter |
| ChatsRouter.AppendedStep | server/src/chats/router.py:194-208 | Appending the event for the next listed user, with the next id, extends the log of the first i users to the log of the first i+1 and moves the counter by one |
| ChatsRouter.FirstUnknown | server/src/chats/router.py:194-208 | The first requested id that names no user, whose event insert breaks the altered-user foreign key |
| ChatsRouter.KnownBefore | server/src/chats/router.py:194-208 | Every requested id before that position names a user |
| ChatsRouter.ChatRouter.AppendEvents | server/src/chats/router.py:194-208 | The loop succeeds iff every requested id names a user. Otherwise it raises IntegrityError, keeping the events written before the failing id, each of which committed on its own |
| ChatsRouter.ChatRouter.CreateChat | server/src/chats/router.py:30-51 | After the chat and its members exist, exactly one CREATE event by the creator is appended |
| ChatsRouter.ChatRouter.JoinChat | server/src/chats/router.py:137-157 | Every error of the service join leaves no event. A join that inserted no row (unknown user) fails on the event insert. A successful join appends one JOIN event |
| ChatsRouter.ChatRouter.LeaveChat | server/src/chats/router.py:160-183 | A LEAVE event follows a leave that keeps the chat. When the leave deleted the chat, the event's foreign-key failure is swallowed and the route still succeeds |
| ChatsRouter.ChatRouter.AddMembersToChat | server/src/chats/router.py:186-210 | No event when the service raises. Otherwise one ADD event per requested id, including ids that added no row, up to the first unknown id, which fails the route |
| ChatsRouter.ChatRouter.RemoveMembersFromChat | server/src/chats/router.py:213-237 | No event when the service raises. Otherwise one REMOVE event per requested id, up to the first unknown id |
| EventsRepository.EventRepository.Create | server/src/events/repository.py:15-28 | The event is stored with a fresh id and returned as stored; an unmet foreign key is IntegrityError with nothing changed |
| EventsRepository.CreateConsistent | server/src/events/models.py:20-38 | Appending an event whose chat, actor and altered user exist keeps the database consistent |
| EventsRepository.ChatEvents | server/src/events/repository.py:37-38 | An event is kept iff it is stored and belongs to the chat |
| EventsRepository.EventPage | server/src/events/repository.py:30-47 | Exactly `limit` events, or what is left after skipping `offset` when that is fewer; drawn from the chat's events without repetition, oldest first (the reverse of the newest-first query) |
| EventsRepository.EventPageIsWindow | server/src/events/repository.py:37-47 | For every offset the page is the reversed OFFSET/LIMIT window of a newest-first ordering of all the chat's events; every skipped event is no older than any returned, and every event after the page no newer |
| EventsRepository.EventPageKeepsNewest | server/src/events/repository.py:37-42 | With no offset, an event of the chat that was left out is no newer than any returned |
| MessagesModels.WordLength | server/src/messages/models.py:26-31 | The word at the front of a string ends at whitespace or at the end |
| MessagesModels.Words | server/src/messages/models.py:26-31 | `str.split()` yields non-empty pieces free of whitespace |
| MessagesModels.ContentEllipsis | server/src/messages/models.py:26-31 | Content shorter than 100 characters is returned unchanged; anything longer, 100 included, ends with "..." |
| MessagesModels.WordsOfWordThen | server/src/messages/models.py:26-31 | Splitting a word followed by whitespace yields that word first |
| MessagesModels.WordLengthOf | server/src/messages/models.py:26-31 | The front word of a word followed by whitespace is that word |
| MessagesModels.Join | server/src/messages/models.py:31 | `" ".join`: the result starts with the first word, followed by a space when more words follow |
| MessagesModels.WordsOfJoin | server/src/messages/models.py:26-31 | Splitting undoes `" ".join` on words |
| MessagesModels.PreviewText | server/src/messages/models.py:26-31 | A long preview is its text followed by "..." |
| MessagesModels.PreviewWords | server/src/messages/models.py:26-31 | A long preview splits back into exactly the first five words of the content (all of them when fewer) |
| MessagesModels.FewWordsKept | server/src/messages/models.py:26-31 | Long content with fewer than five words keeps every word; only its whitespace is collapsed |
| MessagesRepository.Like | server/src/messages/repository.py:108 | ILIKE matching; a pattern without `%` matches only strings no longer than itself |
| MessagesRepository.SearchMatches | server/src/messages/repository.py:108 | The search filter `%q%`; an empty query matches every message |
| MessagesRepository.LikeAnything | server/src/messages/repository.py:104-117 | `%` alone matches every string |
| MessagesRepository.LikeLiteralPrefix | server/src/messages/repository.py:104-117 | A pattern without metacharacters followed by `%` matches exactly the strings that start with it, up to case |
| MessagesRepository.LikeSkip | server/src/messages/repository.py:104-117 | A leading `%` matches iff the rest matches some suffix |
| MessagesRepository.SearchIsContainment | server/src/messages/repository.py:104-117 | For a query without metacharacters the search is case-insensitive substring containment |
| MessagesRepository.UnderscoreIsWildcard | server/src/messages/repository.py:104-117 | `_` in the query is not escaped: "c_t" finds "cat", which does not contain it |
| MessagesRepository.ChatMessages | server/src/messages/repository.py:50-53 | A message is kept iff it is stored and belongs to the chat |
| MessagesRepository.MessagePage | server/src/messages/repository.py:42-60 | Exactly `limit` messages, or what is left after skipping `offset` when that is fewer; drawn from the chat's messages without repetition, in the reverse of the requested order |
| MessagesRepository.MessagePageIsWindow | server/src/messages/repository.py:50-60 | For every offset the page is the reversed OFFSET/LIMIT window of an ordering of all the chat's messages by the key; the skipped messages come before the page in that order and the remaining ones after it |
| MessagesRepository.SearchHits | server/src/messages/repository.py:95-117 | The rows the search keeps are exactly the chat's messages whose content the pattern matches |
| MessagesRepository.SearchPage | server/src/messages/repository.py:95-117 | Exactly `limit` hits, or what is left after skipping `offset` when that is fewer; drawn from the hits without repetition, in the requested order, not reversed |
| MessagesRepository.SearchPageIsWindow | server/src/messages/repository.py:104-117 | For every offset the page is the OFFSET/LIMIT window of an ordering of all hits by the key; the skipped hits come before the page in that order and the remaining ones after it |
| MessagesRepository.SearchPageComplete | server/src/messages/repository.py:95-117 | A first page at least as large as the table misses no hit |
| MessagesRepository.Authored | server/src/messages/repository.py:62-93 | The message with that id if and only if it was written by that user |
| MessagesRepository.DeleteAuthored | server/src/messages/repository.py:62-67 | Exactly the rows matching both filters go, and the count is 1 iff the author's message existed |
| MessagesRepository.DeleteOfChat | server/src/messages/repository.py:69-77 | Every message of the chat goes and no other; the count is how many were the chat's |
| MessagesRepository.PatchedMessage | server/src/messages/repository.py:79-93 | The content changes only when supplied; id, chat, author and time never change |
| MessagesRepository.DeleteAuthoredOnce | server/src/messages/repository.py:62-67 | A delete that matches nothing changes nothing; after one that matched, a second one reports 0 |
| MessagesRepository.UpdateReadBack | server/src/messages/repository.py:79-93 | After an update the author reads back exactly the patched message |
| MessagesRepository.CreateConsistent | server/src/messages/models.py:20-23 | Appending a message of an existing chat and author keeps the database consistent |
| MessagesRepository.DropConsistent | server/src/messages/repository.py:62-77 | Deleting messages keeps the database consistent |
| MessagesRepository.PatchConsistent | server/src/messages/repository.py:79-93 | Patching a message keeps the database consistent |
| MessagesRepository.MessageRepository.Create | server/src/messages/repository.py:15-27 | IntegrityError with nothing changed when the chat or author is missing; otherwise a message with a fresh id is appended |
| MessagesRepository.MessageRepository.Delete | server/src/messages/repository.py:62-67 | The table after the delete, and its count, are those of deleting by both filters; nothing else changes |
| MessagesRepository.MessageRepository.DeleteMulti | server/src/messages/repository.py:69-77 | The table after the delete, and its count, are those of deleting the chat's messages |
| MessagesRepository.MessageRepository.Update | server/src/messages/repository.py:79-93 | NoResultFound with nothing changed unless the author's message exists; otherwise that row is replaced by its patch |
| MessagesService.MessageService.CreateMessage | server/src/messages/service.py:20-28 | An integrity error (missing chat or author) is reported as ChatNotFound, with nothing changed |
| MessagesService.MessageService.DeleteMessage | server/src/messages/service.py:48-63 | CantDeleteMessage, with nothing changed, iff the caller wrote no such message; otherwise exactly that row goes |
| MessagesService.MessageService.DeleteMessages | server/src/messages/service.py:65-70 | Every message of the chat goes and no other; the count of removed rows is returned |
| MessagesService.MessageService.UdpateMessage | server/src/messages/service.py:72-90 | CantUpdateMessage, with nothing changed, iff the caller wrote no such message. Otherwise only supplied fields change, and the author reads back the result |
| UsersService.View | server/src/users/service.py:55-64 | The password hash appears in the returned schema iff it was asked for |
| UsersService.FilterUnique | server/src/users/models.py:35 | Both look-ups (by id, by unique username) match at most one user |
| UsersService.GetUser | server/src/users/service.py:48-64 | UserNotFound iff no user matches; otherwise the one matching user, with the hash only on request |
| UsersService.FoundAt | server/src/users/service.py:48-64 | A stored user matching the filter is the one returned |
| UsersService.CreateUserConsistent | server/src/users/repository.py:13-24 | Appending a user with a fresh id and an unused username keeps the database consistent |
| UsersService.UserService.CreateUser | server/src/users/service.py:35-46 | Only the hash of the password is stored. A taken username is IntegrityError with nothing changed. A new user has no subscribers and is not an admin |
| UsersService.CreatedUserFound | server/src/users/service.py:41-46 | The created user is then found by username, with the stored hash |
| UsersService.RenameOutcome | server/src/users/service.py:100-117 | As written: NoResultFound for a missing user. UsernameOrEmailAlreadyExists iff the name is taken by another user, and also when no name is given. Otherwise the user renamed |
| UsersService.EmptyUpdateRefused | server/src/users/repository.py:78-93 | An update that names no new username is refused as a taken username |
| UsersService.RenameOutcomeExcludingNone | server/src/users/service.py:107-111 | Corrected: the same outcome when a name is given; no name leaves the stored user |
| UsersService.EmptyUpdateKeepsUser | server/src/users/service.py:107-111 | Corrected: an empty update returns the stored user unchanged |
| UsersService.ReplacedUserIds | server/src/users/repository.py:78-93 | Replacing a user by one with the same id keeps the set of user ids |
| UsersService.RenamedUsers | server/src/users/models.py:35 | A rename to an unused name keeps ids as the key and usernames unique |
| UsersService.ReplaceUserConsistent | server/src/users/repository.py:78-93 | Such a replacement keeps the database consistent |
| UsersService.RenameConsistent | server/src/users/service.py:100-117 | A successful rename keeps the database consistent |
| UsersService.UserService.UpdateUser | server/src/users/service.py:100-117 | The outcome is `RenameOutcome` of the stored users; on success the row is replaced, on error nothing changes |
| UsersService.RenamedUserFound | server/src/users/service.py:100-117 | After a rename the user is found under the new name |
| UsersService.Subscribe | server/src/users/service.py:129-144 | Subscribing to oneself is CantSubscribeToUser; otherwise a missing user is UserNotFound and other errors pass through |
| UsersService.Unsubscribe | server/src/users/service.py:146-167 | Unsubscribing from oneself is CantUnsubscribeFromUser; a repository ValueError is UserNotInSubscriptions and NoResultFound is UserNotFound |
| UsersService.SelfNeverReachesRepository | server/src/users/service.py:136-138 | The self check comes before any repository call: its outcome does not depend on the repository |
| UsersService.IsSubscribed | server/src/users/service.py:190-193 | None iff nobody is logged in; true iff the caller is among the subscribers |
| UsersService.PyBound | server/src/users/service.py:183 | Where a Python slice bound lands: within the sequence, and the bound itself when non-negative and in range |
| UsersService.PySlice | server/src/users/service.py:183 | Python slicing for integer bounds of either sign |
| UsersService.EntryView | server/src/users/schemas.py:13-16 | An entry keeps id, username and admin flag, and carries no password hash |
| UsersService.GetSubscriptions | server/src/users/service.py:169-196 | As written: a missing user is UserNotFound; the listing is a Python slice of the subscriptions, never longer than them, each entry reduced to the fields `UserGet` declares |
| UsersService.SubscriptionsAreWindow | server/src/users/service.py:183-196 | For non-negative offset and limit the listing is the OFFSET/LIMIT window, at most `limit` long, entry for entry |
| UsersService.NegativeLimitReturnsMore | server/src/users/service.py:183 | With limit -1, three subscriptions give a listing of two: longer than `limit` |
| UsersService.ListingIgnoresCaller | server/src/users/service.py:185-195 | As written the listing is the same whoever asks: the computed subscription mark never reaches the response |
| UsersService.GetSubscriptionsMarked | server/src/users/service.py:184-195 | Corrected: the same outcome and the same entries as the listing, each carrying its subscriber count and subscription mark |
| UsersService.MarkedListingMarksCaller | server/src/users/service.py:186-194 | Corrected: each entry of the window carries its subscriber count; its mark is None iff nobody is logged in and true iff the caller is among its subscribers |
| UsersService.GetSubscriptionsBounded | server/src/users/router.py:37-52 | Corrected: negative offset or limit is refused, otherwise the listing is the same, and it is never longer than `limit` |
| AuthUtils.EncodeClaims | server/src/auth/utils.py:19-37 | A copy of the payload with `iat` set to now and `exp` to now plus the lifetime, overriding both; every other claim kept |
| AuthUtils.ExpiryAfterIssue | server/src/auth/utils.py:26-31 | `exp` is exactly `expire_minutes` after `iat` |
| AuthUtils.CreateTokenClaims | server/src/auth/utils.py:52-64 | The type field comes first and the payload is spread over it, so a `type` in the payload wins |
| AuthUtils.IdText | server/src/auth/utils.py:69 | `str(user_id)`: a non-empty digit string |
| AuthUtils.ParseId | server/src/auth/dependencies.py:115-118 | A subject is read back as an id iff it is a non-empty digit string |
| AuthUtils.ParseIdText | server/src/auth/utils.py:67-90 | The subject written into a token reads back as the same id |
| AuthUtils.IdTextInjective | server/src/auth/utils.py:67-90 | Different users get different subjects |
| AuthUtils.UserClaims | server/src/auth/utils.py:67-90 | A user token carries exactly type, sub, username, iat and exp |
| AuthUtils.AccessClaims | server/src/auth/utils.py:67-77 | An access token carries type "access", the user's subject and name, and expires 15 minutes after issue |
| AuthUtils.RefreshClaims | server/src/auth/utils.py:80-90 | A refresh token carries type "refresh", the same subject and name, and expires 30 days after issue |
| AuthUtils.AccessAndRefreshDiffer | server/src/auth/utils.py:67-90 | Access and refresh tokens issued together differ only in type and expiry |
| AuthDependencies.AuthenticateUser | server/src/auth/dependencies.py:22-44 | Success iff the username names a user whose password validates. An unknown username and a wrong password give the same 403 |
| AuthDependencies.TokenPayload | server/src/auth/dependencies.py:47-56 | A token that does not decode is a 401 "Invalid authorization token" |
| AuthDependencies.HeaderPayloadOptional | server/src/auth/dependencies.py:59-80 | No token, an empty one or one that does not decode gives None |
| AuthDependencies.CookiePayload | server/src/auth/dependencies.py:83-94 | A missing or empty refresh cookie is a 403 "Missing refresh token"; otherwise the cookie is decoded as a token |
| AuthDependencies.CheckTokenType | server/src/auth/dependencies.py:97-105 | Passes iff the `type` claim equals the expected type; otherwise a 403 |
| AuthDependencies.TypeConfusionRejected | server/src/auth/dependencies.py:97-105 | No claim set passes both the access and the refresh type check |
| AuthDependencies.SubjectUser | server/src/auth/dependencies.py:115-124 | A missing subject matches no user (401). A subject that is not an id is a DataError. A well-formed one gives the user with that id iff there is one, and 401 otherwise |
| AuthDependencies.SubjectIsUser | server/src/auth/dependencies.py:115-124 | The subject claim written for a stored user loads that user |
| AuthDependencies.GetCurrentUser | server/src/auth/dependencies.py:108-126 | An undecodable token is a 401 and a wrong type a 403. Success only for access tokens, and then the result is the subject's user |
| AuthDependencies.GetCurrentOptionalUser | server/src/auth/dependencies.py:132-150 | No usable token, or an empty claim set, means nobody. A decodable token of the wrong type is still a 403. Otherwise the subject's user, or its error |
| AuthDependencies.GetCurrentUserForRefresh | server/src/auth/dependencies.py:153-168 | The cookie errors come first, then a wrong type is a 403. Success only for refresh tokens, and then the result is the subject's user |
| AuthDependencies.AccessTokenRoundTrip | server/src/auth/dependencies.py:108-168 | An access token issued to a user logs that user in on both bearer paths, and is refused with 403 on the refresh path |
| AuthDependencies.RefreshTokenRoundTrip | server/src/auth/dependencies.py:108-168 | A refresh token is accepted on the refresh path only; both bearer paths refuse it with 403 |
| AuthDependencies.NoTokenServesBoth | server/src/auth/dependencies.py:108-168 | No token passes both get_current_user and get_current_user_for_refresh |
| AuthDependencies.VanishedUserUnauthorized | server/src/auth/dependencies.py:115-168 | A well-typed token whose subject no longer exists is a 401 on every path |
| AuthDependencies.AnonymousIsNobody | server/src/auth/dependencies.py:132-137 | Without a usable bearer token the optional user is None, not an error |
| AdminAuth.SessionRepository.constructor | server/src/admin/repository.py:12-28 | An empty session store satisfies its invariant |
| AdminAuth.SessionRepository.Create | server/src/admin/repository.py:12-28 | A session row with a fresh id is inserted and returned |
| AdminAuth.SessionRepository.Get | server/src/admin/repository.py:31-41 | The row with that id, or None exactly when there is none |
| AdminAuth.SessionRepository.Delete | server/src/admin/repository.py:44-54 | The row with that id goes; a missing id changes nothing |
| AdminAuth.Live | server/src/admin/auth.py:65-68 | A session is live iff `now <= expires_at`: the expiry instant itself still passes |
| AdminAuth.AdminAuth.IssuedAt | server/src/admin/models.py:19-21 | The issue time lies exactly the session lifetime before the expiry |
| AdminAuth.AdminAuth.LiveWithinLifetime | server/src/admin/auth.py:65-68 | A session authenticates iff no more than its lifetime has passed since it was issued |
| AdminAuth.AdminAuth.Login | server/src/admin/auth.py:16-41 | Success iff the user exists, the password validates and the user is an admin. Success creates a session expiring at now plus the lifetime, stored in the request; its issue time is now. Failure creates no session and leaves the request alone |
| AdminAuth.AdminAuth.Logout | server/src/admin/auth.py:43-51 | Deletes the stored session when the request names one, always clears the request session, returns true |
| AdminAuth.AdminAuth.Authenticate | server/src/admin/auth.py:53-70 | True iff the request names a stored session with `expires_at` not before now; `expires_at == now` still passes. No id: false, nothing touched. Unknown id: request cleared. Expired: row deleted and request cleared. Valid: nothing changes |

## Left out

- Trigram search of chats and users depends on PostgreSQL's `pg_trgm` extension (`%`, `similarity`), so it is not modelled. The same goes for `get_user_joined_chats`, `get_chats` and `search_chats`, which sit outside the membership core.
- UsersService.Subscribe: the repository's `subscribe`/`unsubscribe` bodies do not exist in the repository's source. Their outcome is an input (`Outcome`), and the subscriber counter is not modelled.
- MessagesRepository.Like: ILIKE case folding covers ASCII letters only; PostgreSQL's locale-dependent folding is not modelled. A trailing lone backslash in a pattern is taken literally.
- Ties in `ORDER BY` are modelled as table order (a stable sort). PostgreSQL leaves their order unspecified, so the history's tie rule is proved only for this choice.
- The `order` enums of the listing endpoints are abstracted to an integer sort key with a direction flag.
- bcrypt and JWT signing and verification are parameters (`hash`, `validate`, `decode`). Expiry checking inside `jwt.decode` belongs to `decode`.
- `uuid4` is replaced by one counter shared by all tables. `str(user_id)` is the decimal text of that counter value.
- AuthDependencies.CheckTokenType: the 403 detail omits the `repr` of the offending type claim.
- AuthDependencies.SubjectUser: a subject that is not an id text reports DataError, standing for the database driver's error, which the source does not catch.
- Pydantic validation (username length, field presence) and the HTTP status mapping of the domain errors are declarative glue and are not modelled.
- The wrappers `get_messages`, `search_messages` and `get_chat_history` of the services only forward to the repository, so the repository queries are modelled instead. Events' `create_event` is modelled by `EventRepository.Create`, to which it forwards.
- Profile photos and S3 storage, `delete_user`, `get_users` and `search_users` are outside the modelled core.
- The Socket.IO server, concurrency and transaction isolation are not modelled: each statement is atomic and requests run one after another.
- Session rows of the admin panel are not tied to the users table, so their `ON DELETE CASCADE` is not modelled.
- AdminAuth.AdminAuth.Login: the liveness of a new session is stated for a non-negative `session_expire_minutes` only, which the settings do not validate.
- Timestamps are integer seconds; time zones and microseconds are not modelled.
- ChatsRepository.HistoryWindow: offset and limit are `nat`. The route (server/src/chats/router.py:125-126) accepts any integer, and the error PostgreSQL raises for a negative OFFSET or LIMIT, which the source does not catch, is not modelled.
- ChatsRepository.PublicPage: offset and limit are `nat`. The route (server/src/chats/router.py:57-58) accepts any integer, and the error PostgreSQL raises for a negative OFFSET or LIMIT, which the source does not catch, is not modelled.
- MessagesRepository.MessagePage: offset and limit are `nat`. The route (server/src/messages/router.py:25-26) accepts any integer, and the error PostgreSQL raises for a negative OFFSET or LIMIT, which the source does not catch, is not modelled.
- MessagesRepository.SearchPage: offset and limit are `nat`. The route (server/src/messages/router.py:44-45) accepts any integer, and the error PostgreSQL raises for a negative OFFSET or LIMIT, which the source does not catch, is not modelled.
- EventsRepository.EventPage: offset and limit are `nat`. The route (server/src/events/router.py:20-21) accepts any integer, and the error PostgreSQL raises for a negative OFFSET or LIMIT, which the source does not catch, is not modelled.
- ChatsRepository.Patched: an update that supplies no field (server/src/chats/service.py:231-234, server/src/chats/schemas.py:26-28) is modelled as leaving the row as it is; what SQLAlchemy does with an UPDATE whose `values()` is empty is not established by the source.
- ChatsRepository.ChatRepository.Update: an update that supplies no field is modelled as leaving the row as it is; what SQLAlchemy does with an UPDATE whose `values()` is empty is not established by the source.
- MessagesRepository.PatchedMessage: an update that supplies no field (server/src/messages/service.py:81, server/src/messages/schemas.py:36-37) is modelled as leaving the row as it is; what SQLAlchemy does with an UPDATE whose `values()` is empty is not established by the source.
- MessagesRepository.MessageRepository.Update: an update that supplies no field is modelled as leaving the row as it is; what SQLAlchemy does with an UPDATE whose `values()` is empty is not established by the source.
- UsersService.RenameOutcomeExcludingNone: the corrected update with no username supplied is modelled as leaving the user as it is; what SQLAlchemy does with an UPDATE whose `values()` is empty is not established by the source.
- UsersService.EmptyUpdateKeepsUser: rests on the same reading of an UPDATE with empty `values()` as a no-op.

## Findings

| source | as written | input that shows it | evidently intended | confidence | as-written member | corrected member |
|---|---|---|---|---|---|---|
| server/src/users/service.py:183 | `users[offset : offset + limit]` with `offset` and `limit` taken unvalidated from the query string (server/src/users/router.py:115-127) | three subscriptions, offset 0, limit -1: two entries come back, more than `limit` | offset and limit validated as non-negative, as the `/users/list` and `/users/search` routes validate theirs (server/src/users/router.py:38-39, 55-56), so the page holds at most `limit` entries | medium, not executed | UsersService.GetSubscriptions, UsersService.NegativeLimitReturnsMore | UsersService.GetSubscriptionsBounded |
| server/src/users/service.py:107-117 | `data.model_dump()` keeps an absent username as None; the UPDATE writes NULL into a NOT NULL column and the IntegrityError is reported as a taken username | an update body without `username` for an existing user: UsernameOrEmailAlreadyExists | `model_dump(exclude_none=True)`, so an empty update leaves the user as it is | medium, not executed | UsersService.RenameOutcome, UsersService.EmptyUpdateRefused | UsersService.RenameOutcomeExcludingNone, UsersService.EmptyUpdateKeepsUser |
| server/src/users/service.py:184-195 | each entry is built as `UserGet(..., subscribers_count=..., is_subscribed=...)`, but `UserGet` (server/src/users/schemas.py:13-16) declares neither field and the base schema ignores extra fields | any caller, logged in or not: the entries carry neither the count nor the mark, while the client reads `user.is_subscribed` and `user.subscribers_count` (client/src/components/user-list-item/UserListItem.jsx:17-18) | a response schema that carries both fields | medium, not executed | UsersService.GetSubscriptions, UsersService.ListingIgnoresCaller | UsersService.GetSubscriptionsMarked, UsersService.MarkedListingMarksCaller |
