/** Identifiers, optional values and the error taxonomy shared by every layer. */
module Common {

  /** A row identifier. The source uses uuid4 values; the model draws them
      from one counter, so they are unique across all tables. */
  type Id = nat

  datatype Option<+T> = None | Some(value: T)

  /** Storage exceptions raised by repositories and the domain errors that the
      services translate them into (one constructor per exception class). */
  datatype Error =
    // sqlalchemy.exc
    | IntegrityError        // foreign-key, unique or not-null violation
    | NoResultFound         // `scalar_one` found no row
    | DataError             // a value PostgreSQL cannot cast (a malformed uuid)
    // src.exceptions / src.chats.exceptions
    | PermissionDenied
    | ChatNotFound
    | AlreadyInChat
    | FailedToLeaveChat
    | CantAddMembers
    | CantRemoveMembers
    // src.messages.exceptions
    | CantDeleteMessage
    | CantUpdateMessage
    // src.users.exceptions
    | UserNotFound
    | UsernameOrEmailAlreadyExists
    | CantSubscribeToUser
    | CantUnsubscribeFromUser
    | UserNotInSubscriptions
    | ValueError
    // fastapi.HTTPException
    | Http(status: int, detail: string)

  /** A call that returns `value` or raises `error`. */
  datatype Result<+T> = Ok(value: T) | Err(error: Error)
}
