/**
  The records exchanged between the chat server and its clients
  (types/index.ts), plus the `send_message` payload. An optional field of
  the TypeScript interfaces is an `Option`; `undefined` is `None`.
 */
module Types {
  import opened JsString

  datatype Option<+T> = None | Some(value: T)

  /** A socket id; it doubles as the user's id for the connection's lifetime. */
  type SessionId = string

  /** Timestamps are an opaque, totally ordered key (milliseconds). */
  type Timestamp = int

  datatype User = User(id: SessionId, username: string)

  datatype Message = Message(
    id: string,
    senderId: SessionId,
    senderUsername: string,
    recipientId: Option<SessionId>,
    text: string,
    timestamp: Timestamp)

  /** AuthJoinResponse. The user list travels as the set of joined users. */
  datatype JoinResponse = JoinResponse(
    success: bool,
    users: Option<set<User>>,
    currentUserId: Option<SessionId>,
    username: Option<string>,
    error: Option<string>)

  datatype RegisterResponse = RegisterResponse(success: bool, message: string, username: Option<string>)

  /** The payload of `send_message`. */
  datatype SendPayload = SendPayload(text: string, recipientId: Option<SessionId>, timestamp: Timestamp)

  /** JavaScript truthiness of an optional string: present and not "". */
  predicate IsTruthy(s: Option<string>)
  {
    s.Some? && s.value != ""
  }

  /** The server's field check, negated:
      `!x || typeof x !== 'string' || x.trim() === ''` is false. */
  predicate Present(field: Option<string>)
  {
    field.Some? && !IsBlank(field.value)
  }
}
