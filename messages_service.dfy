/** server/src/messages/service.py: the message service maps the repository's
    database errors and row counts onto the API's own exceptions. */
module MessagesService {
  import opened Common
  import opened Seqs
  import opened Store
  import opened MessagesRepository

  class MessageService {
    const repository: MessageRepository

    constructor (repository: MessageRepository)
      ensures this.repository == repository
    {
      this.repository := repository;
    }

    /** `create_message`: any integrity error of the insert is reported as a
        missing chat. */
    method CreateMessage(chatId: Id, content: string, userId: Id, createdAt: int) returns (r: Result<Message>)
      requires repository.db.Valid()
      modifies repository.db
      ensures repository.db.Valid()
      ensures r.Err? <==> !(chatId in ChatIds(old(repository.db.chats)) && userId in UserIds(old(repository.db.users)))
      ensures r.Err? ==> r.error == ChatNotFound && repository.db.State() == old(repository.db.State())
      ensures r.Ok? ==>
        && r.value == Message(old(repository.db.nextId), content, createdAt, chatId, userId)
        && repository.db.State() == old(repository.db.State()).(
             messages := old(repository.db.messages) + [r.value], nextId := old(repository.db.nextId) + 1)
    {
      var created := repository.Create(chatId, content, userId, createdAt);
      if created.Err? {
        return Err(ChatNotFound);
      }
      r := created;
    }

    /** `delete_message`: exactly one row must go, otherwise the caller did
        not write such a message and nothing changes. */
    method DeleteMessage(userId: Id, messageId: Id) returns (r: Result<()>)
      requires repository.db.Valid()
      modifies repository.db
      ensures repository.db.Valid()
      ensures r.Err? <==> Authored(old(repository.db.messages), messageId, userId).None?
      ensures r.Err? ==> r.error == CantDeleteMessage && repository.db.State() == old(repository.db.State())
      ensures r.Ok? ==>
        && repository.db.State() == old(repository.db.State()).(
             messages := DeleteAuthored(old(repository.db.messages), messageId, userId).0)
        && |repository.db.messages| == |old(repository.db.messages)| - 1
    {
      DeleteAuthoredOnce(repository.db.messages, messageId, userId);
      var n := repository.Delete(messageId, userId);
      if n != 1 {
        return Err(CantDeleteMessage);
      }
      r := Ok(());
    }

    /** `delete_messages`: every message of the chat goes; the count is
        returned as is. */
    method DeleteMessages(chatId: Id) returns (n: nat)
      requires repository.db.Valid()
      modifies repository.db
      ensures repository.db.Valid()
      ensures forall m :: m in repository.db.messages <==> m in old(repository.db.messages) && m.chatId != chatId
      ensures n == |old(repository.db.messages)| - |repository.db.messages|
      ensures repository.db.State() == old(repository.db.State()).(messages := repository.db.messages)
    {
      n := repository.DeleteMulti(chatId);
    }

    /** `udpate_message`: updating a message one did not write is refused
        and changes nothing. */
    method UdpateMessage(content: Option<string>, messageId: Id, userId: Id) returns (r: Result<Message>)
      requires repository.db.Valid()
      modifies repository.db
      ensures repository.db.Valid()
      ensures r.Err? <==> Authored(old(repository.db.messages), messageId, userId).None?
      ensures r.Err? ==> r.error == CantUpdateMessage && repository.db.State() == old(repository.db.State())
      ensures r.Ok? ==>
        && r.value == PatchedMessage(Authored(old(repository.db.messages), messageId, userId).value, content)
        && Authored(repository.db.messages, messageId, userId) == Some(r.value)
        && repository.db.State() == old(repository.db.State()).(
             messages := ReplaceKeyed(old(repository.db.messages), MessageKey, messageId, r.value))
    {
      if Authored(repository.db.messages, messageId, userId).Some? {
        UpdateReadBack(repository.db.messages, messageId, userId, content);
      }
      var updated := repository.Update(messageId, userId, content);
      if updated.Err? {
        return Err(CantUpdateMessage);
      }
      r := updated;
    }
  }
}
