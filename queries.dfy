/** The read queries of the in-memory message log: filter, keep the last `limit`, and add `isPrivate`. */
module Queries {
  import opened Common
  import opened Entities

  /** The two filters the queries apply to the log. */
  datatype Criterion =
    | VisibleTo(viewer: string)               // what one viewer may see
    | Between(user1: string, user2: string)   // the conversation of two users

  predicate Selects(c: Criterion, m: Message)
  {
    match c
    case VisibleTo(v) =>
      m.sender == v || m.recipient == Some(v) || m.recipient.None?
    case Between(a, b) =>
      || (m.sender == a && m.recipient == Some(b))
      || (m.sender == b && m.recipient == Some(a))
      || (m.sender == a && m.recipient.None?)
      || (m.sender == b && m.recipient.None?)
  }

  /** `log.filter(m => Selects(c, m))` */
  function Filter(log: seq<Message>, c: Criterion): (r: seq<Message>)
    ensures |r| <= |log|
    ensures forall i :: 0 <= i < |r| ==> Selects(c, r[i])
  {
    if log == [] then []
    else
      var init := log[..|log| - 1];
      var last := log[|log| - 1];
      assert log == init + [last];
      Filter(init, c) + (if Selects(c, last) then [last] else [])
  }

  /** The filter keeps exactly the selected log entries: each of its entries is a selected log entry,
      and each selected log entry is among them. */
  lemma {:induction false} FilterMembers(log: seq<Message>, c: Criterion, m: Message)
    ensures m in Filter(log, c) <==> m in log && Selects(c, m)
    decreases |log|
  {
    if log != [] {
      var init := log[..|log| - 1];
      assert log == init + [log[|log| - 1]];
      FilterMembers(init, c, m);
    }
  }

  /** A selected message appended to the log is the filter's new last entry. */
  lemma FilterAppendSelected(log: seq<Message>, m: Message, c: Criterion)
    requires Selects(c, m)
    ensures Filter(log + [m], c) == Filter(log, c) + [m]
  {
    assert (log + [m])[..|log|] == log;
  }

  /** Filtering keeps log order: it distributes over concatenation. */
  lemma {:induction false} FilterAppend(s: seq<Message>, t: seq<Message>, c: Criterion)
    ensures Filter(s + t, c) == Filter(s, c) + Filter(t, c)
    decreases |t|
  {
    if t == [] {
      assert s + t == s;
    } else {
      var t' := t[..|t| - 1];
      var last := t[|t| - 1];
      assert (s + t)[..|s + t| - 1] == s + t';
      FilterAppend(s, t', c);
    }
  }

  /** Two criteria that select the same messages filter every log alike. */
  lemma {:induction false} FilterSameSelection(log: seq<Message>, c: Criterion, d: Criterion)
    requires forall m :: Selects(c, m) == Selects(d, m)
    ensures Filter(log, c) == Filter(log, d)
    decreases |log|
  {
    if log != [] {
      FilterSameSelection(log[..|log| - 1], c, d);
    }
  }

  /** `getRecentMessagesInMemory(limit, currentUser)`: without a viewer (a missing or empty one, which
      `!currentUser` treats alike) the last `limit` messages of the log; with one, the last `limit`
      messages of those the viewer may see. */
  function RecentMessages(log: seq<Message>, limit: int, viewer: Option<string>): (r: seq<MessageView>)
    ensures |r| <= |log|
    ensures limit > 0 ==> |r| <= limit
  {
    if viewer.None? || viewer.value == "" then
      Views(LastN(log, limit))
    else
      Views(LastN(Filter(log, VisibleTo(viewer.value)), limit))
  }

  /** The in-memory half of `getConversationMessages(user1, user2, limit)`. */
  function ConversationMessages(log: seq<Message>, user1: string, user2: string, limit: int): (r: seq<MessageView>)
    ensures |r| <= |log|
    ensures limit > 0 ==> |r| <= limit
  {
    Views(LastN(Filter(log, Between(user1, user2)), limit))
  }

  /** Without a viewer the query returns the views of the last `limit` log entries, in log order. */
  lemma RecentMessagesUnfiltered(log: seq<Message>, limit: int)
    requires limit > 0
    ensures var r := RecentMessages(log, limit, None);
      |r| == Min(limit, |log|) && r == Views(log[|log| - |r|..])
  {
    var tail := LastN(log, limit);
    assert tail == log[|log| - |tail|..];
  }

  /** With a viewer the query returns the views of the last `limit` entries the viewer may see, in log
      order; every one of them was sent by the viewer, is addressed to the viewer, or is public. */
  lemma RecentMessagesForViewer(log: seq<Message>, limit: int, viewer: string)
    requires viewer != "" && limit > 0
    ensures var r := RecentMessages(log, limit, Some(viewer));
      var sub := Filter(log, VisibleTo(viewer));
      && |r| == Min(limit, |sub|) && r == Views(sub[|sub| - |r|..])
      && (forall i :: 0 <= i < |r| ==> r[i].sender == viewer || r[i].recipient == Some(viewer) || !r[i].isPrivate)
  {
    var sub := Filter(log, VisibleTo(viewer));
    var tail := LastN(sub, limit);
    assert tail == sub[|sub| - |tail|..];
    var r := RecentMessages(log, limit, Some(viewer));
    forall i | 0 <= i < |r|
      ensures r[i].sender == viewer || r[i].recipient == Some(viewer) || !r[i].isPrivate
    {
      assert r[i] == View(tail[i]);
      assert Selects(VisibleTo(viewer), tail[i]);
    }
  }

  /** `slice(-0)` is the whole array: a `limit` of 0 returns everything the viewer may see. */
  lemma RecentMessagesLimitZero(log: seq<Message>, viewer: string)
    requires viewer != ""
    ensures RecentMessages(log, 0, None) == Views(log)
    ensures RecentMessages(log, 0, Some(viewer)) == Views(Filter(log, VisibleTo(viewer)))
  {
  }

  /** A private message is never shown to a third user. */
  lemma PrivateMessageHidden(log: seq<Message>, limit: int, viewer: string, m: Message)
    requires viewer != "" && m.recipient.Some?
    requires m.sender != viewer && m.recipient != Some(viewer)
    ensures forall i :: 0 <= i < |RecentMessages(log, limit, Some(viewer))| ==>
      RecentMessages(log, limit, Some(viewer))[i] != View(m)
  {
    var sub := Filter(log, VisibleTo(viewer));
    var tail := LastN(sub, limit);
    assert forall i :: 0 <= i < |tail| ==> Selects(VisibleTo(viewer), tail[i]) by {
      forall i | 0 <= i < |tail| ensures Selects(VisibleTo(viewer), tail[i]) {
        assert tail[i] in sub;
        FilterMembers(log, VisibleTo(viewer), tail[i]);
      }
    }
  }

  /** A conversation is the views of the last `limit` messages between the two users, in log order;
      each is between them in either direction or a public message of one of them. */
  lemma ConversationContents(log: seq<Message>, user1: string, user2: string, limit: int)
    requires limit > 0
    ensures var r := ConversationMessages(log, user1, user2, limit);
      var sub := Filter(log, Between(user1, user2));
      && |r| == Min(limit, |sub|) && r == Views(sub[|sub| - |r|..])
      && (forall i :: 0 <= i < |r| ==>
            (r[i].sender == user1 || r[i].sender == user2)
            && (r[i].isPrivate ==> r[i].recipient == Some(if r[i].sender == user1 then user2 else user1)))
  {
    var sub := Filter(log, Between(user1, user2));
    var tail := LastN(sub, limit);
    assert tail == sub[|sub| - |tail|..];
    ConversationMembers(log, user1, user2, limit);
  }

  /** Every entry of a conversation, at every `limit`, is a message between the two users in either
      direction or a public message of one of them. */
  lemma ConversationMembers(log: seq<Message>, user1: string, user2: string, limit: int)
    ensures var r := ConversationMessages(log, user1, user2, limit);
      forall i :: 0 <= i < |r| ==>
        (r[i].sender == user1 || r[i].sender == user2)
        && (r[i].isPrivate ==> r[i].recipient == Some(if r[i].sender == user1 then user2 else user1))
  {
    var c := Between(user1, user2);
    var sub := Filter(log, c);
    var tail := LastN(sub, limit);
    assert forall i :: 0 <= i < |tail| ==> Selects(c, tail[i]) by {
      forall i | 0 <= i < |tail| ensures Selects(c, tail[i]) {
        assert tail[i] in sub;
        FilterMembers(log, c, tail[i]);
      }
    }
  }

  /** `slice(-0)` is the whole array: a `limit` of 0 returns the whole conversation. */
  lemma ConversationLimitZero(log: seq<Message>, user1: string, user2: string)
    ensures ConversationMessages(log, user1, user2, 0) == Views(Filter(log, Between(user1, user2)))
  {
  }

  /** The conversation of user1 with user2 is the conversation of user2 with user1. */
  lemma ConversationSymmetric(log: seq<Message>, user1: string, user2: string, limit: int)
    ensures ConversationMessages(log, user1, user2, limit) == ConversationMessages(log, user2, user1, limit)
  {
    FilterSameSelection(log, Between(user1, user2), Between(user2, user1));
  }

  /** The timestamps of the log never decrease. */
  predicate Chronological(log: seq<Message>)
  {
    forall i, j :: 0 <= i < j < |log| ==> log[i].timestamp <= log[j].timestamp
  }

  /** The timestamps of a query result never decrease. */
  predicate ChronologicalViews(vs: seq<MessageView>)
  {
    forall i, j :: 0 <= i < j < |vs| ==> vs[i].timestamp <= vs[j].timestamp
  }

  /** A part of a log from some index on keeps the log's chronological order. */
  lemma SuffixChronological(log: seq<Message>, k: nat)
    requires Chronological(log) && k <= |log|
    ensures Chronological(log[k..])
  {
    forall i, j | 0 <= i < j < |log[k..]|
      ensures log[k..][i].timestamp <= log[k..][j].timestamp
    {
      assert log[k..][i] == log[k + i] && log[k..][j] == log[k + j];
    }
  }

  /** Filtering a chronological log gives a chronological log. */
  lemma {:induction false} FilterChronological(log: seq<Message>, c: Criterion)
    requires Chronological(log)
    ensures Chronological(Filter(log, c))
    decreases |log|
  {
    if log != [] {
      var init := log[..|log| - 1];
      var last := log[|log| - 1];
      assert log == init + [last];
      assert Chronological(init) by {
        forall i, j | 0 <= i < j < |init| ensures init[i].timestamp <= init[j].timestamp {
          assert init[i] == log[i] && init[j] == log[j];
        }
      }
      FilterChronological(init, c);
      var f := Filter(init, c);
      forall i | 0 <= i < |f| ensures f[i].timestamp <= last.timestamp {
        assert f[i] in f;
        FilterMembers(init, c, f[i]);
        var k :| 0 <= k < |init| && init[k] == f[i];
        assert init[k] == log[k];
      }
      var g := f + (if Selects(c, last) then [last] else []);
      assert Filter(log, c) == g;
      forall i, j | 0 <= i < j < |g| ensures g[i].timestamp <= g[j].timestamp {
        if j < |f| {
          assert g[i] == f[i] && g[j] == f[j];
        } else {
          assert g[i] == f[i] && g[j] == last;
        }
      }
    }
  }

  /** The queries return log order. It is chronological order exactly when the log is: if the
      timestamps of the log never decrease, neither do those of any query result. */
  lemma QueriesChronological(log: seq<Message>, limit: int, viewer: Option<string>, user1: string, user2: string)
    requires Chronological(log)
    ensures ChronologicalViews(RecentMessages(log, limit, viewer))
    ensures ChronologicalViews(ConversationMessages(log, user1, user2, limit))
  {
    var sub := if viewer.None? || viewer.value == "" then log else Filter(log, VisibleTo(viewer.value));
    if viewer.Some? && viewer.value != "" {
      FilterChronological(log, VisibleTo(viewer.value));
    }
    SuffixChronological(sub, SliceStart(|sub|, -limit));
    ViewsChronological(LastN(sub, limit));
    assert RecentMessages(log, limit, viewer) == Views(LastN(sub, limit));
    var conv := Filter(log, Between(user1, user2));
    FilterChronological(log, Between(user1, user2));
    SuffixChronological(conv, SliceStart(|conv|, -limit));
    ViewsChronological(LastN(conv, limit));
  }

  /** Views keep the timestamps of the messages they are made from. */
  lemma ViewsChronological(log: seq<Message>)
    requires Chronological(log)
    ensures ChronologicalViews(Views(log))
  {
  }
}
