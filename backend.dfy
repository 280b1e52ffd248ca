/**
 * The chat store behind the HTTP endpoints: a `users` table keyed by user id and an
 * append-only `messages` log, with the three operations that read and write them.
 */
module Backend {
  import opened Records

  /** The `users` table: user id to display name (the id is the primary key). */
  type Users = map<UserId, string>

  /** The 404 an endpoint raises when `id` has no row in `users`; its detail names `id`. */
  function UserNotFound(id: UserId): (e: HttpError)
    ensures e.status == 404
    ensures |e.detail| == 5 + |id| + 10
    ensures e.detail[..5] == "User " && e.detail[5..5 + |id|] == id && e.detail[5 + |id|..] == " not found"
  {
    HttpError(404, "User " + id + " not found")
  }

  /** The 404 detail tells which user id was missing: different ids give different errors. */
  lemma NotFoundNamesUser(a: UserId, b: UserId)
    requires UserNotFound(a) == UserNotFound(b)
    ensures a == b
  {
    var e := UserNotFound(a);
    assert |a| == |b|;
    assert a == e.detail[5..5 + |a|] == b;
  }

  // ----- The history query: join, filter, order -----

  /** Both joins of the history query find a user row for this message row. */
  predicate Joins(users: Users, row: Row)
  {
    row.senderId in users && row.receiverId in users
  }

  /** The WHERE clause of the history query: `id` sent or received the row. */
  predicate Involves(row: Row, id: UserId)
  {
    row.senderId == id || row.receiverId == id
  }

  /** The row the INSERT of the message endpoint writes for a message. */
  function RowOf(m: Message): Row
  {
    Row(m.sender.userId, m.receiver.userId, m.content, m.timestamp)
  }

  /**
   * The Message a joined row yields: it stores back as the same row, and both display names
   * are the ones `users` holds at read time.
   */
  function Resolve(users: Users, row: Row): (m: Message)
    requires Joins(users, row)
    ensures RowOf(m) == row
    ensures m.sender.displayName == users[row.senderId] && m.receiver.displayName == users[row.receiverId]
  {
    Message(User(users[row.senderId], row.senderId),
            User(users[row.receiverId], row.receiverId),
            row.content, row.timestamp)
  }

  /**
   * The rows of the history query for `id` before ORDER BY, in log order: every message in it
   * comes from a row that involves `id`, joins at both ends and resolves to it.
   */
  function Selected(users: Users, rows: seq<Row>, id: UserId): (r: seq<Message>)
    ensures |r| <= |rows|
    ensures forall m :: m in r ==>
              Joins(users, RowOf(m)) && Involves(RowOf(m), id) && m == Resolve(users, RowOf(m))
  {
    if rows == [] then []
    else
      var last := rows[|rows| - 1];
      Selected(users, rows[..|rows| - 1], id)
        + (if Joins(users, last) && Involves(last, id) then [Resolve(users, last)] else [])
  }

  /** The log rows that involve `id`, in log order: the WHERE clause without the joins. */
  function Involving(rows: seq<Row>, id: UserId): seq<Row>
  {
    if rows == [] then []
    else
      var last := rows[|rows| - 1];
      Involving(rows[..|rows| - 1], id) + (if Involves(last, id) then [last] else [])
  }

  /** Every stored message's sender and receiver have a row in `users`. */
  ghost predicate ReferentialIntegrity(users: Users, rows: seq<Row>)
  {
    forall i :: 0 <= i < |rows| ==> Joins(users, rows[i])
  }

  /** ORDER BY timestamp ASC: timestamps never decrease along the sequence. */
  predicate SortedByTime(s: seq<Message>)
  {
    forall i, j :: 0 <= i < j < |s| ==> s[i].timestamp <= s[j].timestamp
  }

  /**
   * Inserts `m` into a time-ordered sequence, after every message that is not later than it.
   * This is one tie order that ORDER BY allows; no contract below depends on it.
   */
  function InsertByTime(s: seq<Message>, m: Message): (r: seq<Message>)
    requires SortedByTime(s)
    ensures SortedByTime(r)
    ensures multiset(r) == multiset(s) + multiset{m}
  {
    if s == [] then [m]
    else if m.timestamp < s[0].timestamp then [m] + s
    else
      var rest := InsertByTime(s[1..], m);
      assert s == [s[0]] + s[1..];
      NotBeforeHead(s, m, rest);
      SortedCons(s[0], rest);
      [s[0]] + rest
  }

  /** A message no later than every element of a sorted sequence may be put in front of it. */
  lemma SortedCons(x: Message, rest: seq<Message>)
    requires SortedByTime(rest)
    requires forall k :: 0 <= k < |rest| ==> x.timestamp <= rest[k].timestamp
    ensures SortedByTime([x] + rest)
  {
    var r := [x] + rest;
    forall i, j | 0 <= i < j < |r|
      ensures r[i].timestamp <= r[j].timestamp
    {
      assert r[j] == rest[j - 1];
      if i > 0 {
        assert r[i] == rest[i - 1];
      }
    }
  }

  /** A rearrangement of a sorted sequence's tail plus a message not earlier than its head is not earlier than its head. */
  lemma NotBeforeHead(s: seq<Message>, m: Message, rest: seq<Message>)
    requires SortedByTime(s) && s != [] && s[0].timestamp <= m.timestamp
    requires multiset(rest) == multiset(s[1..]) + multiset{m}
    ensures forall k :: 0 <= k < |rest| ==> s[0].timestamp <= rest[k].timestamp
  {
    forall k | 0 <= k < |rest|
      ensures s[0].timestamp <= rest[k].timestamp
    {
      assert rest[k] in multiset(rest);
      if rest[k] != m {
        assert rest[k] in multiset(s[1..]);
        var j :| 0 <= j < |s[1..]| && s[1..][j] == rest[k];
        assert s[j + 1] == rest[k];
      }
    }
  }

  /** Extending the scanned prefix of the log by one row extends the query's rows by that row's match. */
  lemma SelectedStep(users: Users, rows: seq<Row>, i: nat, id: UserId)
    requires i < |rows|
    ensures Selected(users, rows[..i + 1], id) == Selected(users, rows[..i], id)
              + (if Joins(users, rows[i]) && Involves(rows[i], id) then [Resolve(users, rows[i])] else [])
  {
    assert rows[..i + 1][..i] == rows[..i];
  }

  /** Two sequences with the same multiset hold the same elements. */
  lemma SameMembers(a: seq<Message>, b: seq<Message>)
    requires multiset(a) == multiset(b)
    ensures forall m :: m in a <==> m in b
  {
    forall m
      ensures m in a <==> m in b
    {
      assert m in a <==> m in multiset(a);
      assert m in b <==> m in multiset(b);
    }
  }

  // ----- Properties of the history query -----

  /** A message is in the history of `id` exactly when some joined log row involving `id` yields it. */
  lemma {:induction false} SelectedMembers(users: Users, rows: seq<Row>, id: UserId, m: Message)
    ensures m in Selected(users, rows, id) <==>
            exists i :: 0 <= i < |rows| && Joins(users, rows[i]) && Involves(rows[i], id)
                        && m == Resolve(users, rows[i])
  {
    if rows != [] {
      var init := rows[..|rows| - 1];
      SelectedMembers(users, init, id, m);
      var last := |rows| - 1;
      if m in Selected(users, rows, id) {
        if m !in Selected(users, init, id) {
          assert Joins(users, rows[last]) && Involves(rows[last], id) && m == Resolve(users, rows[last]);
        } else {
          var i :| 0 <= i < |init| && Joins(users, init[i]) && Involves(init[i], id)
                   && m == Resolve(users, init[i]);
          assert rows[i] == init[i];
        }
      } else {
        forall i | 0 <= i < |rows| && Joins(users, rows[i]) && Involves(rows[i], id)
          ensures m != Resolve(users, rows[i])
        {
          if i < last {
            assert rows[i] == init[i];
          }
        }
      }
    }
  }

  /** Every message in the history of `id` involves `id` and carries the current display names. */
  lemma SelectedAreCurrent(users: Users, rows: seq<Row>, id: UserId, m: Message)
    requires m in Selected(users, rows, id)
    ensures m.sender.userId == id || m.receiver.userId == id
    ensures m.sender.userId in users && m.sender.displayName == users[m.sender.userId]
    ensures m.receiver.userId in users && m.receiver.displayName == users[m.receiver.userId]
  {
  }

  /**
   * Under referential integrity the joins drop nothing: the history of `id` is, position by
   * position, every log row involving `id`, resolved.
   */
  lemma {:induction false} NothingDropped(users: Users, rows: seq<Row>, id: UserId)
    requires ReferentialIntegrity(users, rows)
    ensures |Selected(users, rows, id)| == |Involving(rows, id)|
    ensures forall k :: 0 <= k < |Involving(rows, id)| ==>
              Joins(users, Involving(rows, id)[k])
              && Selected(users, rows, id)[k] == Resolve(users, Involving(rows, id)[k])
  {
    if rows != [] {
      var init := rows[..|rows| - 1];
      assert forall i :: 0 <= i < |init| ==> init[i] == rows[i];
      NothingDropped(users, init, id);
    }
  }

  /**
   * Display names are joined at read time: after `id` is renamed to `name` the history has the same
   * messages, each showing `name` wherever `id` is an end, and is otherwise unchanged.
   */
  lemma {:induction false} RenameReflected(users: Users, rows: seq<Row>, u: UserId, id: UserId, name: string)
    requires id in users
    ensures var before, after := Selected(users, rows, u), Selected(users[id := name], rows, u);
      && |after| == |before|
      && forall k :: 0 <= k < |after| ==>
           && after[k].content == before[k].content
           && after[k].timestamp == before[k].timestamp
           && after[k].sender.userId == before[k].sender.userId
           && after[k].receiver.userId == before[k].receiver.userId
           && after[k].sender.displayName ==
                (if after[k].sender.userId == id then name else before[k].sender.displayName)
           && after[k].receiver.displayName ==
                (if after[k].receiver.userId == id then name else before[k].receiver.displayName)
  {
    if rows != [] {
      var n := |rows| - 1;
      assert rows[..n + 1] == rows;
      SelectedStep(users, rows, n, u);
      SelectedStep(users[id := name], rows, n, u);
      RenameReflected(users, rows[..n], u, id, name);
    }
  }

  /**
   * Appending a row for two known users puts its message at the end of both ends' histories
   * and leaves every other user's history as it was.
   */
  lemma PostedVisible(users: Users, rows: seq<Row>, row: Row, u: UserId)
    requires Joins(users, row)
    ensures Involves(row, u) ==> Selected(users, rows + [row], u) == Selected(users, rows, u) + [Resolve(users, row)]
    ensures !Involves(row, u) ==> Selected(users, rows + [row], u) == Selected(users, rows, u)
  {
  }

  // ----- The store -----

  /** The two tables, held in memory. Methods update them as the endpoints' SQL statements do. */
  class ChatStore {
    var users: Users
    var messages: seq<Row>

    /** The referential-integrity invariant the endpoints keep (SQLite does not enforce it). */
    ghost predicate Valid()
      reads this
    {
      ReferentialIntegrity(users, messages)
    }

    /** Freshly created, empty tables. */
    constructor ()
      ensures users == map[] && messages == []
      ensures Valid()
    {
      users := map[];
      messages := [];
    }

    /**
     * POST /api/users: INSERT OR REPLACE the user row, then answer with the user record.
     * Every other user and the whole log stay as they were.
     */
    method CreateUser(userId: UserId, displayName: string) returns (u: User)
      modifies this
      ensures users == old(users)[userId := displayName]
      ensures messages == old(messages)
      ensures u == User(displayName, userId)
      ensures old(Valid()) ==> Valid()
    {
      users := users[userId := displayName];
      u := User(displayName, userId);
    }

    /**
     * POST /api/message: look up the sender, then the receiver, failing with 404 on the first
     * unknown one and changing nothing; otherwise append one row stamped `now` and answer
     * with the message, both display names resolved at call time.
     */
    method Post(content: string, senderId: UserId, receiverId: UserId, now: Timestamp)
      returns (r: Result<Message>)
      modifies this
      ensures users == old(users)
      ensures senderId !in users ==>
                r == Err(UserNotFound(senderId)) && messages == old(messages)
      ensures senderId in users && receiverId !in users ==>
                r == Err(UserNotFound(receiverId)) && messages == old(messages)
      ensures senderId in users && receiverId in users ==>
                && messages == old(messages) + [Row(senderId, receiverId, content, now)]
                && r == Ok(Message(User(users[senderId], senderId),
                                   User(users[receiverId], receiverId), content, now))
      ensures old(Valid()) ==> Valid()
    {
      if senderId !in users {
        return Err(UserNotFound(senderId));
      }
      var senderName := users[senderId];
      if receiverId !in users {
        return Err(UserNotFound(receiverId));
      }
      var receiverName := users[receiverId];
      var msg := Message(User(senderName, senderId), User(receiverName, receiverId), content, now);
      messages := messages + [RowOf(msg)];
      r := Ok(msg);
    }

    /**
     * GET /api/message: the messages `userId` sent or received whose two ends are known users,
     * oldest first. It reads the tables and changes neither.
     */
    method FetchMessages(userId: UserId) returns (history: seq<Message>)
      ensures SortedByTime(history)
      ensures multiset(history) == multiset(Selected(users, messages, userId))
      ensures forall m :: m in history <==> m in Selected(users, messages, userId)
    {
      history := [];
      var i := 0;
      while i < |messages|
        invariant 0 <= i <= |messages|
        invariant SortedByTime(history)
        invariant multiset(history) == multiset(Selected(users, messages[..i], userId))
      {
        var row := messages[i];
        SelectedStep(users, messages, i, userId);
        if Joins(users, row) && Involves(row, userId) {
          history := InsertByTime(history, Resolve(users, row));
        }
        i := i + 1;
      }
      assert messages[..i] == messages;
      SameMembers(history, Selected(users, messages, userId));
    }
  }

  // ----- Clients: what callers can conclude from the contracts alone -----

  /** Creating the same user twice leaves the tables as creating it once does. */
  method CreateUserTwice(store: ChatStore, userId: UserId, displayName: string)
    modifies store
    ensures store.users == old(store.users)[userId := displayName]
    ensures store.messages == old(store.messages)
  {
    var first := store.CreateUser(userId, displayName);
    var second := store.CreateUser(userId, displayName);
    assert first == second;
  }

  /**
   * A post between two known users shows up in a later fetch for either of them; a post naming
   * an unknown user fails and writes nothing.
   */
  method PostThenFetch(store: ChatStore, content: string, senderId: UserId, receiverId: UserId, now: Timestamp)
    returns (posted: Result<Message>, sent: seq<Message>, received: seq<Message>)
    modifies store
    ensures store.users == old(store.users)
    ensures senderId in store.users && receiverId in store.users ==>
              posted.Ok? && posted.value in sent && posted.value in received
    ensures !(senderId in store.users && receiverId in store.users) ==>
              posted.Err? && store.messages == old(store.messages)
  {
    ghost var before := store.messages;
    posted := store.Post(content, senderId, receiverId, now);
    sent := store.FetchMessages(senderId);
    received := store.FetchMessages(receiverId);
    if posted.Ok? {
      var row := Row(senderId, receiverId, content, now);
      PostedVisible(store.users, before, row, senderId);
      PostedVisible(store.users, before, row, receiverId);
    }
  }

  /** Two users, one message: the sender's history holds exactly that message. */
  method OneMessageScenario(now: Timestamp)
  {
    var store := new ChatStore();
    var _ := store.CreateUser("mohammad", "Mohammad S. Khalaf");
    var _ := store.CreateUser("khader", "Khader A. Murtaja");
    var rejected := store.Post("hi", "nobody", "khader", now);
    assert rejected == Err(UserNotFound("nobody"));
    var posted := store.Post("hi", "mohammad", "khader", now);
    assert posted.Ok? && posted.value.receiver.displayName == "Khader A. Murtaja";
    var history := store.FetchMessages("mohammad");
    assert store.messages == [Row("mohammad", "khader", "hi", now)];
    assert Selected(store.users, store.messages, "mohammad") == [posted.value];
    assert |history| == |multiset(history)| == 1;
    assert history[0] in multiset(history);
    assert history == [posted.value];
  }
}
