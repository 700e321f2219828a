/** server/src/chats/service.py: the chat membership state machine on top of
    the chat repository: ownership checks, the private-chat gate, the ban on
    adding or removing oneself, row-count based failures, and deletion of a
    chat its last member leaves. */
module ChatsService {
  import opened Common
  import opened Seqs
  import opened Store
  import opened ChatsRepository

  /** `check_chat_exists_and_user_is_owner`. */
  function CheckChatExistsAndUserIsOwner(chats: seq<Chat>, chatId: Id, userId: Id): (r: Result<()>)
    requires KeyedBy(chats, ChatKey)
    ensures r == Err(ChatNotFound) <==> chatId !in ChatIds(chats)
    ensures r == Err(PermissionDenied) <==> exists c :: c in chats && c.id == chatId && c.ownerId != userId
    ensures r.Ok? <==> exists c :: c in chats && c.id == chatId && c.ownerId == userId
  {
    match FindChat(chats, chatId)
    case None => Err(ChatNotFound)
    case Some(c) =>
      assert forall d :: d in chats && d.id == chatId ==> ChatKey(d) == ChatKey(c);
      if c.ownerId != userId then Err(PermissionDenied) else Ok(())
  }

  /** The private-chat gate of `join_chat`: admins skip it. */
  predicate JoinGateOpen(chats: seq<Chat>, chatId: Id, isAdmin: bool)
    ensures isAdmin ==> JoinGateOpen(chats, chatId, isAdmin)
    ensures !isAdmin && chatId !in ChatIds(chats) ==> !JoinGateOpen(chats, chatId, isAdmin)
  {
    isAdmin || (chatId in ChatIds(chats) && !FindChat(chats, chatId).value.isPrivate)
  }

  /** `add_members_to_chat` goes through: the caller owns the chat, is not in
      the list, and the insert adds at least one row without a clash. */
  ghost predicate AddSucceeds(t: Tables, chatId: Id, userId: Id, memberIds: seq<Id>)
    ensures AddSucceeds(t, chatId, userId, memberIds) ==>
      userId !in memberIds && exists u :: u in memberIds && u in UserIds(t.users) && (chatId, u) !in t.members
  {
    var toAdd := ToAdd(t.users, memberIds);
    && (exists c :: c in t.chats && c.id == chatId && c.ownerId == userId)
    && userId !in memberIds
    && toAdd != {}
    && !AnyMember(t.members, chatId, toAdd)
  }

  /** `remove_members_from_chat` goes through: the caller owns the chat, is not
      in the list, and some listed user is a member. */
  ghost predicate RemoveSucceeds(t: Tables, chatId: Id, userId: Id, memberIds: seq<Id>)
    ensures RemoveSucceeds(t, chatId, userId, memberIds) && Consistent(t) ==>
      userId !in memberIds && exists u :: u in memberIds && u in UserIds(t.users)
  {
    && (exists c :: c in t.chats && c.id == chatId && c.ownerId == userId)
    && userId !in memberIds
    && exists u :: u in memberIds && (chatId, u) in t.members
  }

  /** What `add_members_to_chat` answers on the tables `t`: the ownership
      check's error, CantAddMembers for a caller who lists themself, for a
      clashing insert or for an insert that adds nothing, and otherwise the
      number of rows added. */
  function AddOutcome(t: Tables, chatId: Id, userId: Id, memberIds: seq<Id>): (r: Result<nat>)
    requires KeyedBy(t.chats, ChatKey)
    ensures var check := CheckChatExistsAndUserIsOwner(t.chats, chatId, userId);
      check.Err? ==> r == Err(check.error)
    ensures CheckChatExistsAndUserIsOwner(t.chats, chatId, userId).Ok? && r.Err? ==> r.error == CantAddMembers
    ensures CheckChatExistsAndUserIsOwner(t.chats, chatId, userId).Ok? && userId in memberIds ==>
      r == Err(CantAddMembers)
    ensures r.Ok? <==> AddSucceeds(t, chatId, userId, memberIds)
    ensures r.Ok? ==> r.value == |ToAdd(t.users, memberIds)| > 0
  {
    var check := CheckChatExistsAndUserIsOwner(t.chats, chatId, userId);
    if check.Err? then Err(check.error)
    else if userId in memberIds then Err(CantAddMembers)
    else
      var toAdd := ToAdd(t.users, memberIds);
      if AnyMember(t.members, chatId, toAdd) || |toAdd| == 0 then Err(CantAddMembers)
      else Ok(|toAdd|)
  }

  /** What `remove_members_from_chat` answers on the tables `t`: the
      ownership check's error, CantAddMembers for a caller who lists
      themself, CantRemoveMembers when no listed user is a member, and
      otherwise the number of rows removed. */
  function RemoveOutcome(t: Tables, chatId: Id, userId: Id, memberIds: seq<Id>): (r: Result<nat>)
    requires KeyedBy(t.chats, ChatKey)
    ensures var check := CheckChatExistsAndUserIsOwner(t.chats, chatId, userId);
      check.Err? ==> r == Err(check.error)
    ensures CheckChatExistsAndUserIsOwner(t.chats, chatId, userId).Ok? && userId in memberIds ==>
      r == Err(CantAddMembers)
    ensures (CheckChatExistsAndUserIsOwner(t.chats, chatId, userId).Ok? && userId !in memberIds
      && r.Err?) ==> r.error == CantRemoveMembers
    ensures r.Ok? <==> RemoveSucceeds(t, chatId, userId, memberIds)
    ensures r.Ok? ==> r.value == |Listed(t.members, chatId, memberIds)| > 0
  {
    var check := CheckChatExistsAndUserIsOwner(t.chats, chatId, userId);
    if check.Err? then Err(check.error)
    else if userId in memberIds then Err(CantAddMembers)
    else
      var gone := Listed(t.members, chatId, memberIds);
      if |gone| == 0 then
        assert forall u :: u in memberIds ==> (chatId, u) !in gone;
        Err(CantRemoveMembers)
      else
        Ok(|gone|)
  }

  /** A new chat has no membership rows yet. */
  lemma NewChatHasNoMembers(t: Tables, chatId: Id, userIds: set<Id>)
    requires Consistent(t) && chatId !in ChatIds(t.chats)
    ensures !AnyMember(t.members, chatId, userIds)
  {
  }

  /** What `create_chat` relies on: the new chat has no membership rows, so
      the insert cannot clash, and afterwards its members are the caller and
      the listed users that exist. */
  lemma FreshChatMembers(t: Tables, chatId: Id, userId: Id, memberIds: seq<Id>)
    requires Consistent(t) && chatId !in ChatIds(t.chats) && userId in UserIds(t.users)
    ensures !AnyMember(t.members, chatId, ToAdd(t.users, [userId] + memberIds))
    ensures ToAdd(t.users, [userId] + memberIds) == {userId} + ToAdd(t.users, memberIds)
    ensures MembersOf(t.members + Pairs(chatId, ToAdd(t.users, [userId] + memberIds)), chatId)
         == {userId} + ToAdd(t.users, memberIds)
  {
    assert MembersOf(t.members, chatId) == {};
  }

  /** Joining inserts at most the caller's own row. */
  lemma JoinRows(users: seq<User>, members: set<(Id, Id)>, chatId: Id, userId: Id)
    ensures ToAdd(users, [userId]) == if userId in UserIds(users) then {userId} else {}
    ensures Pairs(chatId, ToAdd(users, [userId])) == if userId in UserIds(users) then {(chatId, userId)} else {}
    ensures AnyMember(members, chatId, ToAdd(users, [userId])) <==> userId in UserIds(users) && (chatId, userId) in members
  {
    assert ToAdd(users, [userId]) == if userId in UserIds(users) then {userId} else {};
  }

  /** Leaving removes exactly the caller's row, which a member has; the chat
      is then left without members iff the caller was its only one. */
  lemma LeaveRows(members: set<(Id, Id)>, chatId: Id, userId: Id)
    ensures Listed(members, chatId, [userId]) == members * {(chatId, userId)}
    ensures (chatId, userId) in members ==>
      && |members - {(chatId, userId)}| == |members| - 1
      && MembersOf(members - {(chatId, userId)}, chatId) == MembersOf(members, chatId) - {userId}
      && (MembersOf(members - {(chatId, userId)}, chatId) == {} <==> MembersOf(members, chatId) == {userId})
  {
    if (chatId, userId) in members {
      var rest := MembersOf(members - {(chatId, userId)}, chatId);
      assert userId in MembersOf(members, chatId);
      forall v | v in MembersOf(members, chatId) ensures v == userId || v in rest {
        assert (chatId, v) in members;
      }
    }
  }

  /** What `remove_members` leaves and reports when it is given one user. */
  lemma RemovedOne(before: set<(Id, Id)>, chatId: Id, userId: Id)
    ensures before - Listed(before, chatId, [userId]) == before - {(chatId, userId)}
    ensures |Listed(before, chatId, [userId])| == if (chatId, userId) in before then 1 else 0
  {
    var gone := Listed(before, chatId, [userId]);
    if (chatId, userId) in before {
      assert gone == {(chatId, userId)};
    } else {
      assert gone == {};
    }
  }

  /** Deleting a chat after one of its rows went is the same as deleting it
      before: the cascade takes every row of the chat anyway. */
  lemma DeleteAfterLeave(t: Tables, chatId: Id, userId: Id)
    ensures DeleteChat(t.(members := t.members - {(chatId, userId)}), chatId) == DeleteChat(t, chatId)
  {
    var u := t.(members := t.members - {(chatId, userId)});
    assert DeleteChat(u, chatId).members == DeleteChat(t, chatId).members;
  }

  class ChatService {
    const repository: ChatRepository

    constructor (repository: ChatRepository)
      ensures this.repository == repository
    {
      this.repository := repository;
    }

    /** `create_chat`: the caller becomes owner, then the caller and the
        requested members (those that exist) become members. */
    method CreateChat(userId: Id, title: string, isPrivate: bool, memberIds: seq<Id>) returns (r: Result<Chat>)
      requires repository.db.Valid()
      modifies repository.db
      ensures repository.db.Valid()
      ensures userId !in UserIds(old(repository.db.users)) ==>
        r == Err(IntegrityError) && repository.db.State() == old(repository.db.State())
      ensures userId in UserIds(old(repository.db.users)) ==>
        && r == Ok(Chat(old(repository.db.nextId), title, isPrivate, userId))
        && repository.db.State() == old(repository.db.State()).(
             chats := old(repository.db.chats) + [r.value],
             members := old(repository.db.members) + Pairs(r.value.id, ToAdd(old(repository.db.users), [userId] + memberIds)),
             nextId := old(repository.db.nextId) + 1)
        && MembersOf(repository.db.members, r.value.id) == {userId} + ToAdd(old(repository.db.users), memberIds)
    {
      ghost var t0 := repository.db.State();
      var created := repository.Create(title, isPrivate, userId);
      if created.Err? {
        return Err(created.error);
      }
      var chat := created.value;
      ghost var t1 := repository.db.State();
      assert t1.users == t0.users && t1.members == t0.members && chat.id in ChatIds(t1.chats);
      FreshChatMembers(t0, chat.id, userId, memberIds);
      var added := repository.AddMembers(chat.id, [userId] + memberIds);
      if added.Err? {
        assert false;
      }
      r := Ok(chat);
    }

    /** `get_chat`. */
    function GetChat(chatId: Id): (r: Result<Chat>)
      reads repository.db
      ensures r.Err? <==> chatId !in ChatIds(repository.db.chats)
      ensures r.Err? ==> r.error == ChatNotFound
      ensures r.Ok? ==> r.value in repository.db.chats && r.value.id == chatId
    {
      match repository.GetSingle(chatId)
      case Ok(c) => Ok(c)
      case Err(_) => Err(ChatNotFound)
    }

    /** `get_chat_members`. */
    function GetChatMembers(chatId: Id): (r: Result<set<Id>>)
      reads repository.db
      ensures r.Err? <==> chatId !in ChatIds(repository.db.chats)
      ensures r.Err? ==> r.error == ChatNotFound
      ensures r.Ok? ==> r.value == MembersOf(repository.db.members, chatId)
    {
      match repository.GetMembers(chatId)
      case Ok(ms) => Ok(ms)
      case Err(_) => Err(ChatNotFound)
    }

    /** `join_chat`: non-admins must find a public chat; the insert's
        integrity error (already a member, or an admin naming a missing chat)
        reads as AlreadyInChat; the result says whether one row went in. */
    method JoinChat(chatId: Id, userId: Id, isAdmin: bool) returns (r: Result<bool>)
      requires repository.db.Valid()
      modifies repository.db
      ensures repository.db.Valid()
      ensures !isAdmin && chatId !in ChatIds(old(repository.db.chats)) ==> r == Err(ChatNotFound)
      ensures (!isAdmin && chatId in ChatIds(old(repository.db.chats))
        && FindChat(old(repository.db.chats), chatId).value.isPrivate) ==> r == Err(PermissionDenied)
      ensures (JoinGateOpen(old(repository.db.chats), chatId, isAdmin) && userId in UserIds(old(repository.db.users))
        && (chatId !in ChatIds(old(repository.db.chats)) || (chatId, userId) in old(repository.db.members)))
        ==> r == Err(AlreadyInChat)
      ensures r.Err? ==> repository.db.State() == old(repository.db.State())
      ensures r.Ok? ==> JoinGateOpen(old(repository.db.chats), chatId, isAdmin)
      ensures r == Ok(true) <==> (JoinGateOpen(old(repository.db.chats), chatId, isAdmin)
        && userId in UserIds(old(repository.db.users)) && chatId in ChatIds(old(repository.db.chats))
        && (chatId, userId) !in old(repository.db.members))
      ensures r == Ok(true) ==>
        repository.db.State() == old(repository.db.State()).(members := old(repository.db.members) + {(chatId, userId)})
      ensures r == Ok(false) ==> repository.db.State() == old(repository.db.State())
      ensures JoinGateOpen(old(repository.db.chats), chatId, isAdmin) && userId !in UserIds(old(repository.db.users)) ==>
        r == Ok(false)
    {
      if !isAdmin {
        var chat := repository.GetSingle(chatId);
        if chat.Err? {
          return Err(ChatNotFound);
        }
        if chat.value.isPrivate {
          return Err(PermissionDenied);
        }
      }
      JoinRows(repository.db.users, repository.db.members, chatId, userId);
      var added := repository.AddMembers(chatId, [userId]);
      if added.Err? {
        return Err(AlreadyInChat);
      }
      r := Ok(added.value == 1);
    }

    /** `leave_chat`: exactly one row must go; a chat left without members is
        deleted. */
    method LeaveChat(chatId: Id, userId: Id) returns (r: Result<()>)
      requires repository.db.Valid()
      modifies repository.db
      ensures repository.db.Valid()
      ensures r.Err? <==> (chatId, userId) !in old(repository.db.members)
      ensures r.Err? ==> r.error == FailedToLeaveChat && repository.db.State() == old(repository.db.State())
      ensures r.Ok? && MembersOf(old(repository.db.members), chatId) != {userId} ==>
        repository.db.State() == old(repository.db.State()).(members := old(repository.db.members) - {(chatId, userId)})
      ensures r.Ok? && MembersOf(old(repository.db.members), chatId) == {userId} ==>
        repository.db.State() == DeleteChat(old(repository.db.State()), chatId)
    {
      ghost var t := repository.db.State();
      ghost var left := t.(members := t.members - {(chatId, userId)});
      LeaveRows(t.members, chatId, userId);
      DeleteAfterLeave(t, chatId, userId);
      RemovedOne(t.members, chatId, userId);
      var n := repository.RemoveMembers(chatId, [userId]);
      if n != 1 {
        return Err(FailedToLeaveChat);
      }
      assert (chatId, userId) in t.members;
      assert chatId in ChatIds(repository.db.chats);
      assert repository.db.State() == left;
      var members := repository.GetMembers(chatId);
      if members.Err? {
        assert false;
      }
      if members.value == {} {
        assert MembersOf(t.members, chatId) == {userId};
        var _ := repository.Delete(chatId);
      } else {
        assert MembersOf(t.members, chatId) != {userId};
      }
      r := Ok(());
    }

    /** `add_members_to_chat`. */
    method AddMembersToChat(chatId: Id, userId: Id, memberIds: seq<Id>) returns (r: Result<nat>)
      requires repository.db.Valid()
      modifies repository.db
      ensures repository.db.Valid()
      ensures r == AddOutcome(old(repository.db.State()), chatId, userId, memberIds)
      ensures r.Err? ==> repository.db.State() == old(repository.db.State())
      ensures r.Ok? ==> repository.db.State() == old(repository.db.State()).(
        members := old(repository.db.members) + Pairs(chatId, ToAdd(old(repository.db.users), memberIds)))
    {
      var check := CheckChatExistsAndUserIsOwner(repository.db.chats, chatId, userId);
      if check.Err? {
        return Err(check.error);
      }
      if userId in memberIds {
        return Err(CantAddMembers);
      }
      var added := repository.AddMembers(chatId, memberIds);
      if added.Err? {
        return Err(CantAddMembers);
      }
      if added.value == 0 {
        return Err(CantAddMembers);
      }
      r := Ok(added.value);
    }

    /** `remove_members_from_chat`; naming oneself raises CantAddMembers, as
        in the source. */
    method RemoveMembersFromChat(chatId: Id, userId: Id, memberIds: seq<Id>) returns (r: Result<nat>)
      requires repository.db.Valid()
      modifies repository.db
      ensures repository.db.Valid()
      ensures r == RemoveOutcome(old(repository.db.State()), chatId, userId, memberIds)
      ensures r.Err? ==> repository.db.State() == old(repository.db.State())
      ensures r.Ok? ==> repository.db.State() == old(repository.db.State()).(
        members := old(repository.db.members) - Listed(old(repository.db.members), chatId, memberIds))
    {
      var check := CheckChatExistsAndUserIsOwner(repository.db.chats, chatId, userId);
      if check.Err? {
        return Err(check.error);
      }
      if userId in memberIds {
        return Err(CantAddMembers);
      }
      var n := repository.RemoveMembers(chatId, memberIds);
      if n == 0 {
        return Err(CantRemoveMembers);
      }
      r := Ok(n);
    }

    /** `update_chat`: owner only; only the supplied fields change. */
    method UpdateChat(chatId: Id, userId: Id, title: Option<string>, isPrivate: Option<bool>) returns (r: Result<Chat>)
      requires repository.db.Valid()
      modifies repository.db
      ensures repository.db.Valid()
      ensures var check := CheckChatExistsAndUserIsOwner(old(repository.db.chats), chatId, userId);
        check.Err? ==> r == Err(check.error) && repository.db.State() == old(repository.db.State())
      ensures CheckChatExistsAndUserIsOwner(old(repository.db.chats), chatId, userId).Ok? ==>
        && r == Ok(Patched(FindChat(old(repository.db.chats), chatId).value, title, isPrivate))
        && repository.db.State() == old(repository.db.State()).(
             chats := ReplaceKeyed(old(repository.db.chats), ChatKey, chatId, r.value))
    {
      var check := CheckChatExistsAndUserIsOwner(repository.db.chats, chatId, userId);
      if check.Err? {
        return Err(check.error);
      }
      var updated := repository.Update(chatId, title, isPrivate);
      if updated.Err? {
        assert false;
      }
      r := updated;
    }

    /** `delete_chat`: owner only; the delete cascades. */
    method DeleteChatAsOwner(chatId: Id, userId: Id) returns (r: Result<()>)
      requires repository.db.Valid()
      modifies repository.db
      ensures repository.db.Valid()
      ensures var check := CheckChatExistsAndUserIsOwner(old(repository.db.chats), chatId, userId);
        check.Err? ==> r == Err(check.error) && repository.db.State() == old(repository.db.State())
      ensures CheckChatExistsAndUserIsOwner(old(repository.db.chats), chatId, userId).Ok? ==>
        r.Ok? && repository.db.State() == DeleteChat(old(repository.db.State()), chatId)
    {
      var check := CheckChatExistsAndUserIsOwner(repository.db.chats, chatId, userId);
      if check.Err? {
        return Err(check.error);
      }
      var _ := repository.Delete(chatId);
      r := Ok(());
    }
  }
}
