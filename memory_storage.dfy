/** The in-memory side of `MemoryStorage`: a user table keyed by id and a message log capped at
    `MaxMessages` entries, with the finders, the online-status update, the roster and the save. */
module MemoryStorage {
  import opened Common
  import opened Entities
  import opened Queries

  /** The log keeps only the newest `MaxMessages` messages. */
  const MaxMessages := 100

  const DefaultPassword := "demo-password"

  /** `userData.password || 'demo-password'`: a missing or empty password falls back to the demo one. */
  function PasswordOrDefault(password: Option<string>): (p: string)
    ensures p != ""
    ensures password.Some? && password.value != "" ==> p == password.value
    ensures password.None? || password.value == "" ==> p == DefaultPassword
  {
    if password.Some? && password.value != "" then password.value else DefaultPassword
  }

  /** `messageData.recipient || null`: a missing or empty recipient makes the message public. */
  function StoredRecipient(recipient: Option<string>): (r: Option<string>)
    ensures r.Some? ==> r.value != "" && r == recipient
    ensures r.None? <==> recipient.None? || recipient.value == ""
  {
    if recipient.Some? && recipient.value != "" then recipient else None
  }

  /** The record `createUserInMemory` builds for a new user. */
  function NewUser(id: UserId, username: string, email: string, password: Option<string>, now: Time): (u: User)
    ensures u.id == id && u.username == username && u.email == email
    ensures u.password == PasswordOrDefault(password) && u.password != ""
    ensures !u.isOnline && u.lastSeen == now && u.createdAt == now
  {
    User(id, username, email, PasswordOrDefault(password), false, now, now)
  }

  /** The table is keyed by id and `order` lists its keys once each, in insertion order
      (the iteration order of a JavaScript `Map`). */
  ghost predicate WellFormed(users: map<UserId, User>, order: seq<UserId>)
  {
    && (forall i, j :: 0 <= i < j < |order| ==> order[i] != order[j])
    && (forall k :: k in users <==> k in order)
    && (forall k :: k in users ==> users[k].id == k)
  }

  /** No two stored users share an email: creation is idempotent by email. */
  ghost predicate EmailsUnique(users: map<UserId, User>)
  {
    forall a, b :: a in users && b in users && users[a].email == users[b].email ==> a == b
  }

  /** `users.values()`, in insertion order. */
  function Entries(users: map<UserId, User>, order: seq<UserId>): (us: seq<User>)
    requires forall k :: k in order ==> k in users
    ensures |us| == |order|
    ensures forall i :: 0 <= i < |order| ==> us[i] == users[order[i]]
  {
    seq(|order|, i requires 0 <= i < |order| => users[order[i]])
  }

  /** The field a finder compares. */
  datatype Key = Email(email: string) | Username(username: string)

  predicate Matches(u: User, key: Key)
  {
    match key
    case Email(e) => u.email == e
    case Username(n) => u.username == n
  }

  /** Some stored user matches `key`. */
  predicate Taken(users: map<UserId, User>, key: Key)
  {
    exists k :: k in users && Matches(users[k], key)
  }

  /** The position of the first user that matches `key`, or `|us|` when none does. */
  function FirstMatchIndex(us: seq<User>, key: Key): (i: nat)
    ensures i <= |us|
    ensures i < |us| ==> Matches(us[i], key)
    ensures forall j :: 0 <= j < i ==> !Matches(us[j], key)
  {
    if us == [] then 0
    else if Matches(us[0], key) then 0
    else 1 + FirstMatchIndex(us[1..], key)
  }

  /** What a finder loop with an early return yields: the first user that matches, or null. */
  function FirstMatch(us: seq<User>, key: Key): (r: Option<User>)
    ensures r.None? <==> forall j :: 0 <= j < |us| ==> !Matches(us[j], key)
    ensures r.Some? ==> r.value in us && Matches(r.value, key)
  {
    var i := FirstMatchIndex(us, key);
    if i < |us| then Some(us[i]) else None
  }

  /** A finder over the insertion-ordered table finds a stored user exactly when one matches. */
  lemma FirstMatchInTable(users: map<UserId, User>, order: seq<UserId>, key: Key)
    requires WellFormed(users, order)
    ensures var r := FirstMatch(Entries(users, order), key);
      && (r.Some? <==> Taken(users, key))
      && (r.Some? ==> r.value.id in users && users[r.value.id] == r.value)
  {
    var us := Entries(users, order);
    var r := FirstMatch(us, key);
    if r.Some? {
      var i :| 0 <= i < |us| && us[i] == r.value;
      assert order[i] in users;
    }
  }

  /** Emails being unique, looking a stored user up by its email finds exactly that user. */
  lemma FindByEmailIsUnique(users: map<UserId, User>, order: seq<UserId>, k: UserId)
    requires WellFormed(users, order) && EmailsUnique(users)
    requires k in users
    ensures FirstMatch(Entries(users, order), Email(users[k].email)) == Some(users[k])
  {
    FirstMatchInTable(users, order, Email(users[k].email));
  }

  /** Storing a user whose email is new keeps the table well formed and the emails unique; a user
      stored under a new id goes last in the iteration order, one under a known id keeps its place. */
  lemma InsertKeepsTable(users: map<UserId, User>, order: seq<UserId>, u: User)
    requires WellFormed(users, order) && EmailsUnique(users)
    requires !Taken(users, Email(u.email))
    ensures var order' := if u.id in users then order else order + [u.id];
      WellFormed(users[u.id := u], order') && EmailsUnique(users[u.id := u])
  {
  }

  /** Replacing a stored user by a record with the same id and email keeps the table invariants. */
  lemma ReplaceKeepsTable(users: map<UserId, User>, order: seq<UserId>, u: User)
    requires WellFormed(users, order) && EmailsUnique(users)
    requires u.id in users && users[u.id].email == u.email
    ensures WellFormed(users[u.id := u], order) && EmailsUnique(users[u.id := u])
  {
  }

  /** The roster `getAllUsers` returns: one entry per stored user, without the password. */
  function Roster(users: map<UserId, User>, order: seq<UserId>): (r: seq<UserSummary>)
    requires WellFormed(users, order)
    ensures |r| == |order| && forall i :: 0 <= i < |r| ==> r[i].id == order[i]
    ensures forall k :: k in users <==> exists i :: 0 <= i < |r| && r[i].id == k
    ensures forall i, j :: 0 <= i < j < |r| ==> r[i].id != r[j].id
    ensures forall i :: 0 <= i < |r| ==> r[i].id in users && r[i] == Summary(users[r[i].id])
  {
    var r := seq(|order|, i requires 0 <= i < |order| => Summary(users[order[i]]));
    assert forall i :: 0 <= i < |r| ==> r[i].id == order[i];
    r
  }

  /** The log after `push` and, past the cap, `slice(-100)`. */
  function Trim(log: seq<Message>): (r: seq<Message>)
    ensures |r| == Min(|log|, MaxMessages)
  {
    if |log| > MaxMessages then LastN(log, MaxMessages) else log
  }

  /** What is kept is the newest part of the log: its last `MaxMessages` entries, in order. */
  lemma TrimKeepsNewest(log: seq<Message>)
    ensures Trim(log) == log[|log| - |Trim(log)|..]
  {
  }

  /** Trimming after every append keeps exactly the newest `MaxMessages` messages ever saved. */
  lemma TrimAppend(history: seq<Message>, m: Message)
    ensures Trim(Trim(history) + [m]) == Trim(history + [m])
  {
    var h' := history + [m];
    var t := Trim(history);
    TrimKeepsNewest(history);
    TrimKeepsNewest(t + [m]);
    var k := |history| - |t|;
    assert t + [m] == h'[k..];
    var n := |Trim(t + [m])|;
    assert Trim(t + [m]) == h'[k..][|t| + 1 - n..];
    assert h'[k..][|t| + 1 - n..] == h'[|h'| - n..];
  }

  /** Appending to a log within the cap drops the oldest entry exactly when the cap is exceeded. */
  lemma TrimOnAppend(log: seq<Message>, m: Message)
    requires |log| <= MaxMessages
    ensures Trim(log + [m]) == (if |log| < MaxMessages then log + [m] else log[1..] + [m])
  {
    if |log| == MaxMessages {
      assert (log + [m])[1..] == log[1..] + [m];
    }
  }

  /** The newest entry of a trimmed log is the message appended last. */
  lemma TrimKeepsLast(log: seq<Message>, m: Message)
    ensures var t := Trim(log + [m]); |t| > 0 && t == t[..|t| - 1] + [m]
  {
    var t := Trim(log + [m]);
    TrimKeepsNewest(log + [m]);
    assert t[|t| - 1] == m;
  }

  /** A message saved into the log is the last entry of every recent-messages query that can
      show it: a public message for every viewer, a private one for its sender and recipient. */
  lemma SavedMessageIsLatest(log: seq<Message>, m: Message, limit: nat, viewer: Option<string>)
    requires m.recipient.None? || viewer.None? || viewer.value == "" || viewer == Some(m.sender) || viewer == m.recipient
    ensures var r := RecentMessages(Trim(log + [m]), limit, viewer);
      |r| > 0 && r[|r| - 1] == View(m) && (r[|r| - 1].isPrivate <==> m.recipient.Some?)
  {
    var t := Trim(log + [m]);
    TrimKeepsLast(log, m);
    var shown := if viewer.None? || viewer.value == "" then t else Filter(t, VisibleTo(viewer.value));
    assert |shown| > 0 && shown[|shown| - 1] == m by {
      if viewer.Some? && viewer.value != "" {
        FilterAppendSelected(t[..|t| - 1], m, VisibleTo(viewer.value));
      }
    }
    LastNKeepsLast(shown, limit);
    assert RecentMessages(t, limit, viewer) == Views(LastN(shown, limit));
  }

  /** A message saved into the log closes the conversation of its sender with its recipient, seen
      from either side; a public message closes every conversation of its sender. */
  lemma SavedMessageClosesConversation(log: seq<Message>, m: Message, other: string, limit: nat)
    requires m.recipient.None? || m.recipient == Some(other)
    ensures var r := ConversationMessages(Trim(log + [m]), m.sender, other, limit);
      && |r| > 0 && r[|r| - 1] == View(m)
      && r == ConversationMessages(Trim(log + [m]), other, m.sender, limit)
  {
    var t := Trim(log + [m]);
    TrimKeepsLast(log, m);
    var c := Between(m.sender, other);
    var shown := Filter(t, c);
    assert |shown| > 0 && shown[|shown| - 1] == m by {
      FilterAppendSelected(t[..|t| - 1], m, c);
    }
    LastNKeepsLast(shown, limit);
    ConversationSymmetric(t, m.sender, other, limit);
  }

  /** Saving a message stamped no earlier than every message saved before keeps the capped log in
      chronological order, so the queries over it return chronological order too. */
  lemma SaveKeepsChronological(history: seq<Message>, m: Message)
    requires Chronological(history)
    requires forall i :: 0 <= i < |history| ==> history[i].timestamp <= m.timestamp
    ensures Chronological(history + [m]) && Chronological(Trim(history + [m]))
  {
    var h := history + [m];
    forall i, j | 0 <= i < j < |h| ensures h[i].timestamp <= h[j].timestamp {
      assert h[i] == history[i];
    }
    TrimKeepsNewest(h);
    SuffixChronological(h, |h| - |Trim(h)|);
  }

  /** The in-memory store. */
  class Store {
    var users: map<UserId, User>
    var order: seq<UserId>
    var messages: seq<Message>
    /** Every message ever saved, oldest first; the log is its newest part. */
    ghost var history: seq<Message>

    ghost predicate Valid()
      reads this
    {
      WellFormed(users, order) && EmailsUnique(users) && messages == Trim(history)
    }

    constructor ()
      ensures Valid()
      ensures users == map[] && order == [] && messages == [] && history == []
    {
      users, order, messages := map[], [], [];
      history := [];
    }

    /** The loop over `users.values()` shared by the two finders: returns at the first match. */
    method ScanUsers(key: Key) returns (r: Option<User>)
      requires Valid()
      ensures r == FirstMatch(Entries(users, order), key)
    {
      ghost var us := Entries(users, order);
      var i := 0;
      while i < |order|
        invariant 0 <= i <= |order|
        invariant forall j :: 0 <= j < i ==> !Matches(us[j], key)
      {
        var u := users[order[i]];
        if Matches(u, key) {
          assert us[i] == u;
          assert FirstMatchIndex(us, key) == i;
          return Some(u);
        }
        i := i + 1;
      }
      assert FirstMatchIndex(us, key) == |us|;
      return None;
    }

    /** `findUserByEmail`: the stored user with that email, or null; changes nothing. */
    method FindUserByEmail(email: string) returns (r: Option<User>)
      requires Valid()
      ensures r.Some? <==> Taken(users, Email(email))
      ensures r.Some? ==> r.value.email == email && r.value.id in users && users[r.value.id] == r.value
    {
      r := ScanUsers(Email(email));
      FirstMatchInTable(users, order, Email(email));
    }

    /** `findUserByUsername`: the first stored user, in insertion order, with that username, or null;
        changes nothing. */
    method FindUserByUsername(username: string) returns (r: Option<User>)
      requires Valid()
      ensures r.Some? <==> Taken(users, Username(username))
      ensures r.Some? ==> r.value.username == username && r.value.id in users && users[r.value.id] == r.value
      ensures r == FirstMatch(Entries(users, order), Username(username))
    {
      r := ScanUsers(Username(username));
      FirstMatchInTable(users, order, Username(username));
    }

    /** `findUserById`: `users.get(id) || null`. */
    method FindUserById(id: UserId) returns (r: Option<User>)
      requires Valid()
      ensures r.Some? <==> id in users
      ensures r.Some? ==> r.value.id == id && r.value == users[id]
    {
      r := if id in users then Some(users[id]) else None;
    }

    /** `createUserInMemory`: idempotent by email. A known email returns the stored user and changes
        nothing; otherwise a new offline user is stored under `id` (overwriting a user stored under the
        same id, which keeps its place in the iteration order). */
    method CreateUser(username: string, email: string, password: Option<string>, id: UserId, now: Time)
      returns (u: User)
      requires Valid()
      modifies this
      ensures Valid()
      ensures messages == old(messages) && history == old(history)
      ensures Taken(old(users), Email(email)) ==>
        && u.email == email && u.id in old(users) && old(users)[u.id] == u
        && users == old(users) && order == old(order)
      ensures !Taken(old(users), Email(email)) ==>
        && u == NewUser(id, username, email, password, now)
        && users == old(users)[id := u]
        && order == if id in old(users) then old(order) else old(order) + [id]
      ensures u.id in users && users[u.id] == u
    {
      var existing := FindUserByEmail(email);
      if existing.Some? {
        return existing.value;
      }
      u := NewUser(id, username, email, password, now);
      InsertKeepsTable(users, order, u);
      var order' := if id in users then order else order + [id];
      users, order := users[id := u], order';
    }

    /** `updateUserOnlineStatus`: an unknown id returns null and changes nothing; a known one gets
        `isOnline` and `lastSeen` set, and no other user changes. */
    method UpdateUserOnlineStatus(userId: UserId, isOnline: bool, now: Time) returns (r: Option<User>)
      requires Valid()
      modifies this
      ensures Valid()
      ensures order == old(order) && messages == old(messages) && history == old(history)
      ensures userId !in old(users) ==> r.None? && users == old(users)
      ensures userId in old(users) ==>
        && r == Some(old(users)[userId].(isOnline := isOnline, lastSeen := now))
        && users == old(users)[userId := r.value]
    {
      if userId in users {
        var u := users[userId].(isOnline := isOnline, lastSeen := now);
        ReplaceKeepsTable(users, order, u);
        users := users[userId := u];
        r := Some(u);
      } else {
        r := None;
      }
    }

    /** `saveMessageInMemory`: appends the message as the newest log entry; once the log holds more
        than `MaxMessages` entries the oldest is dropped and the rest keep their order. */
    method SaveMessage(sender: string, recipient: Option<string>, text: string, id: string, now: Time)
      returns (m: Message)
      requires Valid()
      modifies this
      ensures Valid()
      ensures users == old(users) && order == old(order)
      ensures m == Message(id, sender, StoredRecipient(recipient), text, now)
      ensures history == old(history) + [m]
      ensures |messages| <= MaxMessages && messages[|messages| - 1] == m
      ensures |old(messages)| < MaxMessages ==> messages == old(messages) + [m]
      ensures |old(messages)| == MaxMessages ==> messages == old(messages)[1..] + [m]
    {
      m := Message(id, sender, StoredRecipient(recipient), text, now);
      var log := messages + [m];
      if |log| > MaxMessages {
        log := LastN(log, MaxMessages);
      }
      assert log == Trim(history + [m]) by {
        TrimOnAppend(messages, m);
        TrimAppend(history, m);
      }
      assert |messages| < MaxMessages ==> log == messages + [m] by {
        TrimOnAppend(messages, m);
      }
      assert |messages| == MaxMessages ==> log == messages[1..] + [m] by {
        TrimOnAppend(messages, m);
      }
      messages, history := log, history + [m];
    }
  }
}
