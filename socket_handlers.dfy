/** The socket side of the chat backend: the `connectedUsers` registry from connection id to the
    identity that joined on it, and the handlers of the socket events. Every emit is appended to an
    outbox together with the set of connections it reaches. */
module SocketHandlers {
  import opened Common
  import opened Entities
  import opened Queries
  import opened MemoryStorage

  /** What `connectedUsers` holds for a connection that joined. */
  datatype Binding = Binding(userId: UserId, username: string)

  /** The events the server emits. */
  datatype Payload =
    | CurrentUser(username: string)
    | Users(roster: seq<UserSummary>)
    | MessageHistory(messages: seq<MessageView>)
    | NewMessage(id: string, user: string, text: string, timestamp: Time)
    | UserTyping(username: string)
    | UserStoppedTyping(username: string)
    | Error(reason: string)

  /** One emit: the connections it reaches and what it carries. */
  datatype Emit = Emit(to: set<ConnId>, payload: Payload)

  /** How many messages a joining connection receives. */
  const HistoryLimit := 50

  class Server {
    /** The storage singleton the handlers share with the HTTP routes. */
    const store: Store
    /** The open connections: `io.emit` reaches all of them, joined or not. */
    var live: set<ConnId>
    var connectedUsers: map<ConnId, Binding>
    var outbox: seq<Emit>

    /** Only open connections are bound, and each is bound to a stored user. */
    ghost predicate Valid()
      reads this, store
    {
      && store.Valid()
      && connectedUsers.Keys <= live
      && forall c :: c in connectedUsers ==> connectedUsers[c].userId in store.users
    }

    constructor (store: Store)
      requires store.Valid()
      ensures Valid()
      ensures this.store == store && live == {} && connectedUsers == map[] && outbox == []
    {
      this.store := store;
      live, connectedUsers, outbox := {}, map[], [];
    }

    /** `io.on('connection')`: a new connection opens, unbound. */
    method Connect(c: ConnId)
      requires Valid() && c !in live
      modifies this
      ensures Valid()
      ensures live == old(live) + {c}
      ensures connectedUsers == old(connectedUsers) && outbox == old(outbox)
    {
      live := live + {c};
    }

    /** `join`: `decode` stands for reading the user id out of the token; `None` is a token it cannot
        read, answered with an error to this connection only. A user id that is not stored binds
        nothing and emits nothing. A stored one is marked online, bound to this connection (replacing
        an earlier binding), told its username, and sent the latest unfiltered history, while every
        open connection gets the new roster. */
    method Join(c: ConnId, token: Token, decode: Token -> Option<UserId>, now: Time)
      requires Valid() && c in live
      modifies this, store
      ensures Valid()
      ensures live == old(live)
      ensures store.order == old(store.order) && store.messages == old(store.messages)
      ensures store.history == old(store.history)
      ensures decode(token).None? ==>
        && outbox == old(outbox) + [Emit({c}, Error("Authentication failed"))]
        && connectedUsers == old(connectedUsers) && store.users == old(store.users)
      ensures decode(token).Some? && decode(token).value !in old(store.users) ==>
        && outbox == old(outbox)
        && connectedUsers == old(connectedUsers) && store.users == old(store.users)
      ensures decode(token).Some? && decode(token).value in old(store.users) ==>
        var u := old(store.users)[decode(token).value];
        && store.users == old(store.users)[u.id := u.(isOnline := true, lastSeen := now)]
        && connectedUsers == old(connectedUsers)[c := Binding(u.id, u.username)]
        && outbox == old(outbox) + [
             Emit({c}, CurrentUser(u.username)),
             Emit(live, Users(Roster(store.users, store.order))),
             Emit({c}, MessageHistory(RecentMessages(store.messages, HistoryLimit, None)))]
    {
      var claim := decode(token);
      if claim.None? {
        outbox := outbox + [Emit({c}, Error("Authentication failed"))];
        return;
      }
      var found := store.FindUserById(claim.value);
      if found.Some? {
        var u := found.value;
        var _ := store.UpdateUserOnlineStatus(u.id, true, now);
        connectedUsers := connectedUsers[c := Binding(u.id, u.username)];
        var roster := Roster(store.users, store.order);
        var history := RecentMessages(store.messages, HistoryLimit, None);
        outbox := outbox + [
          Emit({c}, CurrentUser(u.username)),
          Emit(live, Users(roster)),
          Emit({c}, MessageHistory(history))];
      }
    }

    /** `sendMessage`: an unbound connection gets an error and nothing is saved. A bound one saves a
        public message under the username it joined as, whatever the client claims, and the message
        reaches every open connection, the sender's included. */
    method SendMessage(c: ConnId, text: string, id: string, now: Time)
      requires Valid() && c in live
      modifies this, store
      ensures Valid()
      ensures live == old(live) && connectedUsers == old(connectedUsers)
      ensures store.users == old(store.users) && store.order == old(store.order)
      ensures c !in connectedUsers ==>
        && outbox == old(outbox) + [Emit({c}, Error("User not authenticated"))]
        && store.messages == old(store.messages) && store.history == old(store.history)
      ensures c in connectedUsers ==>
        var sender := connectedUsers[c].username;
        var m := Message(id, sender, None, text, now);
        && store.history == old(store.history) + [m]
        && store.messages[|store.messages| - 1] == m
        && outbox == old(outbox) + [Emit(live, NewMessage(id, sender, text, now))]
    {
      if c !in connectedUsers {
        outbox := outbox + [Emit({c}, Error("User not authenticated"))];
        return;
      }
      var binding := connectedUsers[c];
      var m := store.SaveMessage(binding.username, None, text, id, now);
      outbox := outbox + [Emit(live, NewMessage(m.id, binding.username, text, m.timestamp))];
    }

    /** `typing`: a bound connection's username reaches every other open connection. */
    method Typing(c: ConnId)
      requires Valid() && c in live
      modifies this
      ensures Valid()
      ensures live == old(live) && connectedUsers == old(connectedUsers)
      ensures c !in connectedUsers ==> outbox == old(outbox)
      ensures c in connectedUsers ==>
        outbox == old(outbox) + [Emit(live - {c}, UserTyping(connectedUsers[c].username))]
    {
      if c in connectedUsers {
        outbox := outbox + [Emit(live - {c}, UserTyping(connectedUsers[c].username))];
      }
    }

    /** `stopTyping`: as `typing`, with the stop event. */
    method StopTyping(c: ConnId)
      requires Valid() && c in live
      modifies this
      ensures Valid()
      ensures live == old(live) && connectedUsers == old(connectedUsers)
      ensures c !in connectedUsers ==> outbox == old(outbox)
      ensures c in connectedUsers ==>
        outbox == old(outbox) + [Emit(live - {c}, UserStoppedTyping(connectedUsers[c].username))]
    {
      if c in connectedUsers {
        outbox := outbox + [Emit(live - {c}, UserStoppedTyping(connectedUsers[c].username))];
      }
    }

    /** `disconnect`: the connection closes. If it was bound, its user goes offline, exactly its
        binding is removed and the remaining open connections get the new roster; otherwise nothing
        else changes. */
    method Disconnect(c: ConnId, now: Time)
      requires Valid() && c in live
      modifies this, store
      ensures Valid()
      ensures live == old(live) - {c}
      ensures store.order == old(store.order) && store.messages == old(store.messages)
      ensures store.history == old(store.history)
      ensures c !in old(connectedUsers) ==>
        && connectedUsers == old(connectedUsers) && outbox == old(outbox)
        && store.users == old(store.users)
      ensures c in old(connectedUsers) ==>
        var id := old(connectedUsers)[c].userId;
        && store.users == old(store.users)[id := old(store.users)[id].(isOnline := false, lastSeen := now)]
        && connectedUsers == old(connectedUsers) - {c}
        && outbox == old(outbox) + [Emit(live, Users(Roster(store.users, store.order)))]
    {
      var remaining := live - {c};
      if c in connectedUsers {
        var binding := connectedUsers[c];
        var _ := store.UpdateUserOnlineStatus(binding.userId, false, now);
        var roster := Roster(store.users, store.order);
        live, connectedUsers := remaining, connectedUsers - {c};
        outbox := outbox + [Emit(remaining, Users(roster))];
      } else {
        live := remaining;
      }
    }

    /** `getCurrentUser`: a bound connection is told its username; an unbound one gets nothing. */
    method GetCurrentUser(c: ConnId)
      requires Valid() && c in live
      modifies this
      ensures Valid()
      ensures live == old(live) && connectedUsers == old(connectedUsers)
      ensures c !in connectedUsers ==> outbox == old(outbox)
      ensures c in connectedUsers ==>
        outbox == old(outbox) + [Emit({c}, CurrentUser(connectedUsers[c].username))]
    {
      if c in connectedUsers {
        outbox := outbox + [Emit({c}, CurrentUser(connectedUsers[c].username))];
      }
    }
  }
}
