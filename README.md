# Chat backend core, in-memory mode

This project models the core of a real-time chat backend (Express routes and socket.io handlers over a
storage singleton). In this core, clients register or log in over HTTP. They then open a socket and
`join` with a token. After that they can broadcast messages, send typing indicators, and disconnect.
The server tracks which connection belongs to which user in the `connectedUsers` registry. It keeps
users' online status up to date and republishes the user roster to every connection when someone joins
or leaves.

The model covers the in-memory storage backend that the singleton falls back to:

- a user table keyed by id, iterated in insertion order like a JavaScript `Map`;
- a message log capped at the newest 100 messages;
- the finders, the online-status update, the roster, saving a message, and the two history queries.

Over that store it covers:

- the socket event handlers, as methods of a `Server` class. Every emit is appended to an outbox,
  together with the set of connections it reaches.
- the decision logic of the `/register`, `/login` and `/logout` routes.

Modules:

- `Common`: `Option`, and JavaScript's `slice(-n)`.
- `Entities`: users, messages and their outward views.
- `Queries`: the read queries on the log, as functions, with lemmas about them.
- `MemoryStorage`: the table invariants, the trimming of the log, and the `Store` class.
- `SocketHandlers`: the `Server` class.
- `AuthRoutes`: the three routes.

JavaScript semantics that the model writes out:

- `x || default` treats the empty string as missing. So an empty password becomes `demo-password`, an
  empty recipient makes a message public, and an empty viewer means no viewer.
- `slice(-limit)` returns the whole log when `limit` is 0. When `limit` is negative, it drops the
  first `-limit` entries.
- Reassigning a `Map` key keeps that key's place in the iteration order.
- socket.io removes a closing connection before its `disconnect` handler runs. So the roster sent on
  disconnect reaches only the remaining connections.

## Behaviour worth knowing

- `join` sends the latest 50 messages unfiltered, not filtered for the joining user.
- `sendMessage` takes only a text. It always saves a public message and broadcasts it to every
  connection, the sender's included, without `recipient` or `isPrivate`.
- Message text is not validated (neither empty nor over-length text is refused).
- `join` decodes the token's payload instead of verifying it.
- The in-memory store does not enforce unique usernames. `/register` refuses a known username before
  creating the user.
- The queries return log order, which is the order of saving, not a sort by timestamp. The model
  proves that this is chronological order whenever every message is saved with a timestamp no
  earlier than those before it (`QueriesChronological`, `SaveKeepsChronological`).
- Presence is not counted per connection. When one of two connections of the same user disconnects,
  the user is marked offline while the other connection is still open and bound
  (`SocketHandlers.Server.Disconnect`).

## Model

| member | source | states |
|---|---|---|
| Common.LastN | backend/models/MemoryStorage.js:321 | `slice(-n)`: for positive `n`, the last `min(n, len)` elements in order; `n == 0` gives the whole sequence; a negative `n` drops the first `-n` |
| Common.SliceStart | backend/models/MemoryStorage.js:321 | the index `slice` starts from always lies within the array |
| Common.SliceFrom | backend/models/MemoryStorage.js:321 | `slice(start)` is always a suffix; a negative `start` keeps the last `min(-start, len)` elements, a non-negative one drops the first `min(start, len)` |
| Queries.Filter | backend/models/MemoryStorage.js:330-332 | the filter result is no longer than the log and every entry satisfies the criterion |
| Queries.FilterMembers | backend/models/MemoryStorage.js:330-332 | a message is in the filter result if and only if it is in the log and selected |
| Queries.FilterAppend | backend/models/MemoryStorage.js:369-374 | filtering keeps log order: filter of `s + t` is filter of `s` followed by filter of `t` |
| Queries.FilterSameSelection | backend/models/MemoryStorage.js:369-374 | two criteria selecting the same messages give the same filter result on every log |
| Queries.RecentMessages | backend/models/MemoryStorage.js:319-340 | the recent-messages query returns no more entries than the log holds, and at most `limit` for a positive `limit` (what the entries are is stated in the lemmas below) |
| Queries.ConversationMessages | backend/models/MemoryStorage.js:369-381 | the conversation query returns no more entries than the log holds, and at most `limit` for a positive `limit` (what the entries are is stated in the lemmas below) |
| Queries.RecentMessagesUnfiltered | backend/models/MemoryStorage.js:319-327 | without a viewer, the result is exactly the views of the last `limit` log entries (all of them when the log is shorter), in log order |
| Queries.RecentMessagesForViewer | backend/models/MemoryStorage.js:329-339 | with a viewer, the result is exactly the views of the last `limit` entries the viewer may see, in log order, each sent by or to the viewer or public |
| Queries.RecentMessagesLimitZero | backend/models/MemoryStorage.js:321 | a `limit` of 0 returns the whole log, or everything the viewer may see |
| Queries.PrivateMessageHidden | backend/models/MemoryStorage.js:330-339 | a private message neither sent by nor addressed to the viewer is never in the viewer's result |
| Queries.ConversationContents | backend/models/MemoryStorage.js:369-381 | a conversation is exactly the views of the last `limit` messages of the two-sided filter, in log order, each between the two users in either direction or a public message of one of them |
| Queries.ConversationMembers | backend/models/MemoryStorage.js:369-381 | at every `limit`, every entry of a conversation is between the two users in either direction or a public message of one of them |
| Queries.ConversationLimitZero | backend/models/MemoryStorage.js:376 | a `limit` of 0 returns the whole conversation |
| Queries.ConversationSymmetric | backend/models/MemoryStorage.js:369-374 | the conversation of `user1` with `user2` equals that of `user2` with `user1` |
| Queries.SuffixChronological | backend/models/MemoryStorage.js:276 | a part of a chronological log from some index on is chronological |
| Queries.FilterChronological | backend/models/MemoryStorage.js:330-332 | filtering a log whose timestamps never decrease gives such a log |
| Queries.QueriesChronological | backend/models/MemoryStorage.js:319-381 | if the log's timestamps never decrease, neither do those of any recent-messages or conversation result |
| Entities.Summary | backend/models/MemoryStorage.js:230-234 | a roster entry carries the user's id, username, email, online flag and last-seen time |
| Entities.View | backend/models/MemoryStorage.js:322-326 | a view copies the stored fields and sets `isPrivate` iff the message has a recipient |
| Entities.Views | backend/models/MemoryStorage.js:335-339 | a view per message, in the same order |
| MemoryStorage.PasswordOrDefault | backend/models/MemoryStorage.js:127 | a missing or empty password becomes `demo-password`, any other is kept; the stored password is never empty |
| MemoryStorage.StoredRecipient | backend/models/MemoryStorage.js:268 | a missing or empty recipient is stored as none (public), any other is kept |
| MemoryStorage.NewUser | backend/models/MemoryStorage.js:123-131 | a new user has the given id, username and email, the defaulted non-empty password, is offline, and was created and last seen now |
| MemoryStorage.Entries | backend/models/MemoryStorage.js:149 | `users.values()`: the stored user of each id, in insertion order |
| MemoryStorage.FirstMatchIndex | backend/models/MemoryStorage.js:149-153 | the position of the first user matching the key, every earlier user not matching, or the length when none matches |
| MemoryStorage.FirstMatch | backend/models/MemoryStorage.js:149-154 | the finder loop yields null exactly when no user matches, otherwise a user of the sequence that matches |
| MemoryStorage.FirstMatchInTable | backend/models/MemoryStorage.js:168-173 | over the insertion-ordered table, a user is found exactly when some stored user matches, and it is the stored record |
| MemoryStorage.FindByEmailIsUnique | backend/models/MemoryStorage.js:116-121 | since creation is idempotent by email, looking up a stored user's email finds exactly that user |
| MemoryStorage.InsertKeepsTable | backend/models/MemoryStorage.js:123-133 | storing a user with a new email keeps the table keyed by id, its order duplicate-free and emails unique; a new id goes last, a reused one keeps its place |
| MemoryStorage.ReplaceKeepsTable | backend/models/MemoryStorage.js:208-212 | writing back a user with the same id and email keeps the table invariants |
| MemoryStorage.Roster | backend/models/MemoryStorage.js:229-235 | one entry per stored user in insertion order, with distinct ids, each the user's fields without the password |
| MemoryStorage.Trim | backend/models/MemoryStorage.js:273-277 | the log after an append holds `min(len, 100)` entries |
| MemoryStorage.TrimKeepsNewest | backend/models/MemoryStorage.js:275-277 | what the cap keeps is the newest part of the log, in order |
| MemoryStorage.TrimAppend | backend/models/MemoryStorage.js:273-277 | capping after every append keeps exactly the newest 100 messages ever saved |
| MemoryStorage.TrimOnAppend | backend/models/MemoryStorage.js:273-277 | appending to a log within the cap drops the oldest entry exactly when the log was full |
| MemoryStorage.TrimKeepsLast | backend/models/MemoryStorage.js:273-277 | the newest entry of the capped log is the message appended last |
| MemoryStorage.SavedMessageIsLatest | backend/models/MemoryStorage.js:264-339 | a saved message is the last entry of every recent-messages query that may show it, with `isPrivate` iff it has a recipient |
| MemoryStorage.SavedMessageClosesConversation | backend/models/MemoryStorage.js:264-381 | a saved message is the last entry of its sender's conversation with its recipient (or with anyone, when public), seen from either side |
| MemoryStorage.SaveKeepsChronological | backend/models/MemoryStorage.js:264-277 | saving a message stamped no earlier than all before it keeps the history and the capped log chronological |
| MemoryStorage.Store.constructor | backend/models/MemoryStorage.js:8-10 | the store starts with no users and no messages |
| MemoryStorage.Store.ScanUsers | backend/models/MemoryStorage.js:149-154 | the loop over `users.values()` returns the first user in insertion order matching the key, or null |
| MemoryStorage.Store.FindUserByEmail | backend/models/MemoryStorage.js:137-155 | a user is found iff some stored user has that email, and it is the stored record with that email |
| MemoryStorage.Store.FindUserByUsername | backend/models/MemoryStorage.js:158-175 | a user is found iff some stored user has that username; it is the first such in insertion order |
| MemoryStorage.Store.FindUserById | backend/models/MemoryStorage.js:187 | the stored user under that id, or null when none |
| MemoryStorage.Store.CreateUser | backend/models/MemoryStorage.js:116-135 | a known email returns the stored user and changes nothing; otherwise a new offline user with the defaulted password is stored under the id, and the invariants are kept |
| MemoryStorage.Store.UpdateUserOnlineStatus | backend/models/MemoryStorage.js:207-215 | an unknown id returns null and changes nothing; a known one has `isOnline` and `lastSeen` set and no other user changes |
| MemoryStorage.Store.SaveMessage | backend/models/MemoryStorage.js:264-280 | the message is appended as the newest entry; a full log drops its oldest entry; the log equals the newest 100 of all messages ever saved |
| SocketHandlers.Server.constructor | backend/socket/socketHandlers.js:4 | the registry starts empty, with no connections and no emits |
| SocketHandlers.Server.Connect | backend/socket/socketHandlers.js:7 | a new connection opens unbound and nothing is emitted |
| SocketHandlers.Server.Join | backend/socket/socketHandlers.js:11-48 | an unreadable token gets "Authentication failed" on this connection only; an unknown user changes and emits nothing; a known user is set online, bound, sent its username and the unfiltered last 50 messages, and every connection gets the roster |
| SocketHandlers.Server.SendMessage | backend/socket/socketHandlers.js:51-78 | an unbound connection gets "User not authenticated" and nothing is saved; a bound one saves a public message under its joined username, which becomes the newest log entry, and every connection receives it |
| SocketHandlers.Server.Typing | backend/socket/socketHandlers.js:81-86 | a bound connection's username reaches every other connection; an unbound one emits nothing |
| SocketHandlers.Server.StopTyping | backend/socket/socketHandlers.js:88-93 | as for typing, with the stop event |
| SocketHandlers.Server.Disconnect | backend/socket/socketHandlers.js:96-113 | the connection closes; if bound, its user goes offline, exactly its binding is removed and the remaining connections get the roster; otherwise nothing else changes |
| SocketHandlers.Server.GetCurrentUser | backend/socket/socketHandlers.js:116-121 | a bound connection is told its username; an unbound one gets nothing |
| AuthRoutes.Register | backend/routes/auth.js:8-55 | a known email is refused first, then a known username, with nothing changed; otherwise the user is created and the 201 response carries a token for its id and its public fields |
| AuthRoutes.Login | backend/routes/auth.js:58-96 | an unknown email and a wrong or missing password both get "Invalid credentials" and change nothing; the right password sets the user online and the response carries a token and its public fields |
| AuthRoutes.Logout | backend/routes/auth.js:99-113 | without a token nothing changes and logout succeeds; a token failing verification is a 500; otherwise its user, if stored, goes offline and logout succeeds |

## Left out

- The MongoDB backend, backend selection and `ensureInitialized` are not modelled. Only the in-memory
  branches are, because the durable backend is an external database.
- `Date.now()` and `new Date()` become the parameters `now` and `id`. The model does not assume ids
  are unique. As in the source, a new user under a reused id overwrites the stored one.
- Entities.View: copies `_id` as `id`. The `|| msg.timestamp.toString()` fallback is not modelled,
  because it fires only for an empty `_id`. The in-memory store never creates one, since its ids are
  clock readings.
- SocketHandlers.Server.Join: base64 and JSON decoding of the token's payload is a parameter `decode`.
  A payload it cannot read is `None`.
- AuthRoutes.Register, AuthRoutes.Login and AuthRoutes.Logout: `jwt.sign` and `jwt.verify` are
  parameters. The token's contents and expiry are not modelled.
- The `catch` paths that only a throwing storage call reaches are not modelled: "Failed to send
  message", and the 500 answer of register and login. The in-memory store never throws. The 500 of
  logout on a failed verification is modelled.
- `socket.join(user._id)` puts a connection in a personal room, but nothing emits to that room, so it
  is not modelled. socket.io delivery is modelled as the set of connections an emit reaches.
- Handlers run one at a time, each to completion. The model does not cover the interleaving of async
  handlers at their `await` points.
- The finders and `updateUserOnlineStatus` return the stored user object itself, which the model
  replaces by a value copy. The handlers only read fields of such a result that no later step changes.
- Request bodies and socket payloads are taken as strings (passwords and tokens as possibly missing
  strings) and `limit` as an integer. Other JSON values and the default arguments are not modelled.
- MemoryStorage.NewUser: stamps `createdAt` and `lastSeen` with one clock reading `now`, where the
  source reads the clock twice. The difference is not observable, since `createdAt` never leaves the
  store.
- Logging with `console.log` and `console.error` is not modelled.
