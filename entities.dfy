/** The records the chat backend keeps and hands out. */
module Entities {
  import opened Common

  type UserId = string
  type ConnId = string
  type Token = string

  /** Milliseconds of the wall clock; every reading is a parameter of the operation that needs it. */
  type Time = nat

  /** A stored user record of the in-memory user table. */
  datatype User = User(
    id: UserId,
    username: string,
    email: string,
    password: string,
    isOnline: bool,
    lastSeen: Time,
    createdAt: Time)

  /** One roster entry of `getAllUsers`: a user without its password and creation time. */
  datatype UserSummary = UserSummary(
    id: UserId,
    username: string,
    email: string,
    isOnline: bool,
    lastSeen: Time)

  /** A stored message; `sender` is the record's `user` field (a username) and a missing
      `recipient` marks a public message. */
  datatype Message = Message(
    id: string,
    sender: string,
    recipient: Option<string>,
    text: string,
    timestamp: Time)

  /** A message as the read queries return it: the stored fields plus the derived `isPrivate`. */
  datatype MessageView = MessageView(
    id: string,
    sender: string,
    recipient: Option<string>,
    text: string,
    timestamp: Time,
    isPrivate: bool)

  /** The roster entry of a user: its public fields, never its password or creation time. */
  function Summary(u: User): (r: UserSummary)
    ensures r.id == u.id && r.username == u.username && r.email == u.email
    ensures r.isOnline == u.isOnline && r.lastSeen == u.lastSeen
  {
    UserSummary(u.id, u.username, u.email, u.isOnline, u.lastSeen)
  }

  /** `v` is `m` as the read queries return it: the stored fields are copied and `isPrivate` is
      derived from the stored recipient. */
  predicate ViewOf(v: MessageView, m: Message)
  {
    && v.id == m.id && v.sender == m.sender && v.recipient == m.recipient
    && v.text == m.text && v.timestamp == m.timestamp
    && (v.isPrivate <==> m.recipient.Some?)
  }

  /** `{...msg, id: msg._id, isPrivate: msg.recipient !== null}` */
  function View(m: Message): (v: MessageView)
    ensures ViewOf(v, m)
  {
    MessageView(m.id, m.sender, m.recipient, m.text, m.timestamp, m.recipient.Some?)
  }

  function Views(ms: seq<Message>): (r: seq<MessageView>)
    ensures |r| == |ms|
    ensures forall i :: 0 <= i < |ms| ==> r[i] == View(ms[i])
  {
    seq(|ms|, i requires 0 <= i < |ms| => View(ms[i]))
  }
}
