/** server/src/messages/repository.py: the message table, its paged and
    searched views, and the author-scoped delete and update statements. */
module MessagesRepository {
  import opened Common
  import opened Seqs
  import opened Store

  // -----------------------------------------------------------------------
  // `content ILIKE '%' || q || '%'`

  /** Case folding for ILIKE, on ASCII letters. */
  function Fold(c: char): char {
    if 'A' <= c <= 'Z' then (c as int + 32) as char else c
  }

  /** `s ILIKE p` in PostgreSQL: `%` matches any run of characters, `_` any one
      character, a backslash makes the next pattern character literal, and
      letters compare after case folding. */
  predicate Like(s: string, p: string)
    ensures Like(s, p) && '%' !in p ==> |s| <= |p|
    decreases |p|, |s|
  {
    if |p| == 0 then |s| == 0
    else if p[0] == '%' then Like(s, p[1..]) || (|s| > 0 && Like(s[1..], p))
    else if p[0] == '_' then |s| > 0 && Like(s[1..], p[1..])
    else if p[0] == '\\' && |p| >= 2 then |s| > 0 && Fold(s[0]) == Fold(p[1]) && Like(s[1..], p[2..])
    else |s| > 0 && Fold(s[0]) == Fold(p[0]) && Like(s[1..], p[1..])
  }

  /** The search filter: `q` is put between `%` signs without escaping. */
  predicate SearchMatches(content: string, q: string)
    ensures q == [] ==> SearchMatches(content, q)
  {
    if q == [] then
      assert "%" + q + "%" == "%%" && "%%"[1..] == "%";
      LikeAnything(content);
      Like(content, "%" + q + "%")
    else
      Like(content, "%" + q + "%")
  }

  /** A query with no LIKE metacharacter in it. */
  predicate Literal(q: string) {
    forall i :: 0 <= i < |q| ==> q[i] != '%' && q[i] != '_' && q[i] != '\\'
  }

  predicate FoldedEq(a: string, b: string) {
    |a| == |b| && forall k :: 0 <= k < |a| ==> Fold(a[k]) == Fold(b[k])
  }

  /** `q` occurs in `s` at position `i`, up to case. */
  predicate OccursAt(s: string, q: string, i: int) {
    0 <= i && i + |q| <= |s| && FoldedEq(s[i..i + |q|], q)
  }

  /** `q` occurs in `s` up to case. */
  predicate ContainsFolded(s: string, q: string) {
    exists i :: 0 <= i <= |s| && OccursAt(s, q, i)
  }

  lemma {:induction false} LikeAnything(s: string)
    ensures Like(s, "%")
    decreases |s|
  {
    if |s| > 0 {
      LikeAnything(s[1..]);
    }
  }

  lemma {:induction false} LikeLiteralPrefix(s: string, q: string)
    requires Literal(q)
    ensures Like(s, q + "%") <==> |q| <= |s| && FoldedEq(s[..|q|], q)
    decreases |q|
  {
    if |q| == 0 {
      assert q + "%" == "%";
      LikeAnything(s);
    } else if |s| == 0 {
      var p := q + "%";
      assert p[0] == q[0];
    } else {
      var p := q + "%";
      assert p[0] == q[0] && p[1..] == q[1..] + "%";
      LikeLiteralPrefix(s[1..], q[1..]) by {
        assert forall i :: 0 <= i < |q[1..]| ==> q[1..][i] == q[i + 1];
      }
      if |s| > 0 && |q| <= |s| {
        assert FoldedEq(s[..|q|], q) <==> Fold(s[0]) == Fold(q[0]) && FoldedEq(s[1..][..|q| - 1], q[1..]) by {
          if Fold(s[0]) == Fold(q[0]) && FoldedEq(s[1..][..|q| - 1], q[1..]) {
            forall k | 0 <= k < |q| ensures Fold(s[..|q|][k]) == Fold(q[k]) {
              if k > 0 { assert s[1..][..|q| - 1][k - 1] == s[k]; }
            }
          }
          if FoldedEq(s[..|q|], q) {
            forall k | 0 <= k < |q| - 1 ensures Fold(s[1..][..|q| - 1][k]) == Fold(q[1..][k]) {
              assert s[..|q|][k + 1] == s[k + 1];
            }
          }
        }
      }
    }
  }

  lemma {:induction false} LikeSkip(s: string, r: string)
    ensures Like(s, "%" + r) <==> exists i :: 0 <= i <= |s| && Like(s[i..], r)
    decreases |s|
  {
    var p := "%" + r;
    assert p[0] == '%' && p[1..] == r;
    assert s[0..] == s;
    if |s| > 0 {
      LikeSkip(s[1..], r);
      assert Like(s, p) == (Like(s, r) || Like(s[1..], p));
      if Like(s[1..], p) {
        var i :| 0 <= i <= |s[1..]| && Like(s[1..][i..], r);
        assert s[1..][i..] == s[i + 1..];
      }
      if exists i :: 0 <= i <= |s| && Like(s[i..], r) {
        var i :| 0 <= i <= |s| && Like(s[i..], r);
        if i > 0 {
          assert s[1..][i - 1..] == s[i..];
        }
      }
    }
  }

  /** With no metacharacter in `q`, the search is case-insensitive substring
      containment. */
  lemma SearchIsContainment(content: string, q: string)
    requires Literal(q)
    ensures SearchMatches(content, q) <==> ContainsFolded(content, q)
  {
    assert "%" + q + "%" == "%" + (q + "%");
    LikeSkip(content, q + "%");
    forall i | 0 <= i <= |content|
      ensures Like(content[i..], q + "%") <==> OccursAt(content, q, i)
    {
      LikeLiteralPrefix(content[i..], q);
      if i + |q| <= |content| {
        assert content[i..][..|q|] == content[i..i + |q|];
      }
    }
  }

  /** `_` in the query is not escaped: it matches any one character. */
  lemma UnderscoreIsWildcard()
    ensures SearchMatches("cat", "c_t") && !ContainsFolded("cat", "c_t")
  {
    var p := "%" + "c_t" + "%";
    assert p == "%c_t%";
    assert "cat"[1..] == "at" && "at"[1..] == "t" && "t"[1..] == "";
    assert p[1..] == "c_t%" && "c_t%"[1..] == "_t%" && "_t%"[1..] == "t%" && "t%"[1..] == "%";
    assert Like("", "%");
    assert Like("t", "t%");
    assert Like("at", "_t%");
    assert Like("cat", "c_t%");
    forall i ensures !OccursAt("cat", "c_t", i) {
      if 0 <= i && i + 3 <= 3 {
        assert "cat"[i..i + 3] == "cat";
        assert Fold("cat"[1]) != Fold("c_t"[1]);
      }
    }
  }

  // -----------------------------------------------------------------------
  // Queries.

  /** The chat's messages (`filter_by(chat_id=...)`), in table order. */
  function ChatMessages(messages: seq<Message>, chatId: Id): (r: seq<Message>)
    ensures forall m :: m in r <==> m in messages && m.chatId == chatId
  {
    Filter(messages, (m: Message) => m.chatId == chatId)
  }

  /** `get_multi`: the chat's messages ordered by `key` (descending when
      `desc`), OFFSET/LIMIT, then the page reversed. The page holds `limit`
      messages, or what is left after the first `offset` when that is
      fewer. */
  function MessagePage(messages: seq<Message>, chatId: Id, key: Message -> int, desc: bool, offset: nat, limit: nat)
    : (r: seq<Message>)
    ensures var n := |ChatMessages(messages, chatId)|;
      |r| == Min(limit, n - Min(offset, n))
    ensures multiset(r) <= multiset(ChatMessages(messages, chatId))
    ensures forall m :: m in r ==> m in messages && m.chatId == chatId
    ensures forall i, j :: 0 <= i < j < |r| ==> Precedes(r[j], r[i], key, desc)
  {
    var ofChat := ChatMessages(messages, chatId);
    var ordered := OrderBy(ofChat, key, desc);
    assert |ordered| == |multiset(ofChat)|;
    var page := Window(ordered, offset, limit);
    ReversedWindowOrdered(ordered, (a: Message, b: Message) => Precedes(a, b, key, desc), offset, limit);
    WindowInside(ordered, offset, limit);
    var r := Reverse(page);
    assert |r| == |page|;
    assert multiset(r) <= multiset(ofChat);
    forall m | m in r ensures m in messages && m.chatId == chatId {
      assert m in multiset(ofChat);
    }
    r
  }

  /** For any offset the page is, read backwards, the OFFSET/LIMIT window of
      an ordering of the chat's messages by `key`: the `offset` messages it
      skips come no later in that order than any message returned, and the
      messages after the window no earlier. */
  lemma MessagePageIsWindow(messages: seq<Message>, chatId: Id, key: Message -> int, desc: bool,
                            offset: nat, limit: nat)
    ensures exists s: seq<Message> ::
      && multiset(s) == multiset(ChatMessages(messages, chatId))
      && OrderedBy(s, key, desc)
      && MessagePage(messages, chatId, key, desc, offset, limit) == Reverse(Window(s, offset, limit))
      && (forall x: Message, y: Message :: x in Window(s, 0, offset) && y in Window(s, offset, limit) ==>
            Precedes(x, y, key, desc))
      && (forall x: Message, y: Message :: x in Window(s, offset, limit) && y in Window(s, offset + limit, |s|) ==>
            Precedes(x, y, key, desc))
  {
    var s := OrderBy(ChatMessages(messages, chatId), key, desc);
    WindowSplit(s, key, desc, offset, limit);
    assert MessagePage(messages, chatId, key, desc, offset, limit) == Reverse(Window(s, offset, limit));
    assert multiset(s) == multiset(ChatMessages(messages, chatId)) && OrderedBy(s, key, desc);
  }

  /** The rows `search` filters: the chat's messages that the pattern matches. */
  function SearchHits(messages: seq<Message>, chatId: Id, q: string): (r: seq<Message>)
    ensures forall m :: m in r <==> m in messages && m.chatId == chatId && SearchMatches(m.content, q)
  {
    Filter(messages, (m: Message) => m.chatId == chatId && SearchMatches(m.content, q))
  }

  /** `search`: the hits ordered by `key` (descending when `desc`), then
      OFFSET/LIMIT; not reversed. The page holds `limit` hits, or what is
      left after the first `offset` when that is fewer. */
  function SearchPage(messages: seq<Message>, chatId: Id, q: string, key: Message -> int, desc: bool,
                      offset: nat, limit: nat): (r: seq<Message>)
    ensures var n := |SearchHits(messages, chatId, q)|;
      |r| == Min(limit, n - Min(offset, n))
    ensures multiset(r) <= multiset(SearchHits(messages, chatId, q))
    ensures OrderedBy(r, key, desc)
  {
    var hits := SearchHits(messages, chatId, q);
    var ordered := OrderBy(hits, key, desc);
    assert |ordered| == |multiset(hits)|;
    WindowOrdered(ordered, (a: Message, b: Message) => Precedes(a, b, key, desc), offset, limit);
    WindowInside(ordered, offset, limit);
    Window(ordered, offset, limit)
  }

  /** For any offset the page is the OFFSET/LIMIT window of an ordering of
      the hits by `key`: the `offset` hits it skips come no later in that
      order than any hit returned, and the hits after the window no
      earlier. */
  lemma SearchPageIsWindow(messages: seq<Message>, chatId: Id, q: string, key: Message -> int, desc: bool,
                           offset: nat, limit: nat)
    ensures exists s: seq<Message> ::
      && multiset(s) == multiset(SearchHits(messages, chatId, q))
      && OrderedBy(s, key, desc)
      && SearchPage(messages, chatId, q, key, desc, offset, limit) == Window(s, offset, limit)
      && (forall x: Message, y: Message :: x in Window(s, 0, offset) && y in Window(s, offset, limit) ==>
            Precedes(x, y, key, desc))
      && (forall x: Message, y: Message :: x in Window(s, offset, limit) && y in Window(s, offset + limit, |s|) ==>
            Precedes(x, y, key, desc))
  {
    var s := OrderBy(SearchHits(messages, chatId, q), key, desc);
    WindowSplit(s, key, desc, offset, limit);
    assert SearchPage(messages, chatId, q, key, desc, offset, limit) == Window(s, offset, limit);
    assert multiset(s) == multiset(SearchHits(messages, chatId, q)) && OrderedBy(s, key, desc);
  }

  /** A first page large enough for every hit misses none. */
  lemma SearchPageComplete(messages: seq<Message>, chatId: Id, q: string, key: Message -> int, desc: bool, limit: nat)
    requires |messages| <= limit
    ensures forall m :: m in SearchHits(messages, chatId, q) ==> m in SearchPage(messages, chatId, q, key, desc, 0, limit)
  {
    var hits := SearchHits(messages, chatId, q);
    var ordered := OrderBy(hits, key, desc);
    var r := Window(ordered, 0, limit);
    assert |hits| <= |messages|;
    assert r == ordered;
    forall m | m in hits ensures m in r {
      assert m in multiset(hits);
    }
  }

  // -----------------------------------------------------------------------
  // Statements.

  /** The message with this id, if it was written by `userId`. */
  function Authored(messages: seq<Message>, messageId: Id, userId: Id): (r: Option<Message>)
    ensures r.None? <==> forall m :: m in messages ==> !(m.id == messageId && m.userId == userId)
    ensures r.Some? ==> r.value in messages && r.value.id == messageId && r.value.userId == userId
  {
    FindBy(messages, (m: Message) => m.id == messageId && m.userId == userId)
  }

  /** `DELETE FROM messages WHERE message_id = ... AND user_id = ...`: the rows
      kept and the row count. */
  function DeleteAuthored(messages: seq<Message>, messageId: Id, userId: Id): (r: (seq<Message>, nat))
    requires KeyedBy(messages, MessageKey)
    ensures forall m :: m in r.0 <==> m in messages && !(m.id == messageId && m.userId == userId)
    ensures multiset(r.0) <= multiset(messages)
    ensures r.1 == (if Authored(messages, messageId, userId).Some? then 1 else 0)
    ensures |r.0| + r.1 == |messages|
  {
    var p := (m: Message) => m.id == messageId && m.userId == userId;
    AtMostOneWithKey(messages, MessageKey, p, messageId);
    var hit := Authored(messages, messageId, userId);
    assert hit.Some? ==> hit.value in Filter(messages, p);
    (Remove(messages, p), Count(messages, p))
  }

  /** `DELETE FROM messages WHERE chat_id = ...`: the rows kept and the count. */
  function DeleteOfChat(messages: seq<Message>, chatId: Id): (r: (seq<Message>, nat))
    ensures forall m :: m in r.0 <==> m in messages && m.chatId != chatId
    ensures multiset(r.0) <= multiset(messages)
    ensures |r.0| + r.1 == |messages|
    ensures r.1 == |Filter(messages, (m: Message) => m.chatId == chatId)|
  {
    var p := (m: Message) => m.chatId == chatId;
    (Remove(messages, p), Count(messages, p))
  }

  /** `update_message`'s patch: the content changes only when supplied. */
  function PatchedMessage(m: Message, content: Option<string>): (r: Message)
    ensures r.id == m.id && r.chatId == m.chatId && r.userId == m.userId && r.createdAt == m.createdAt
    ensures r.content == (if content.Some? then content.value else m.content)
  {
    if content.Some? then m.(content := content.value) else m
  }

  /** A delete that matches no row changes nothing; one that matches leaves
      no message of that author with that id, so deleting again reports 0. */
  lemma DeleteAuthoredOnce(messages: seq<Message>, messageId: Id, userId: Id)
    requires KeyedBy(messages, MessageKey)
    ensures Authored(messages, messageId, userId).None? ==>
      DeleteAuthored(messages, messageId, userId).0 == messages
    ensures Authored(DeleteAuthored(messages, messageId, userId).0, messageId, userId).None?
    ensures KeyedBy(DeleteAuthored(messages, messageId, userId).0, MessageKey)
    ensures DeleteAuthored(DeleteAuthored(messages, messageId, userId).0, messageId, userId).1 == 0
  {
    var p := (m: Message) => m.id == messageId && m.userId == userId;
    var kept := DeleteAuthored(messages, messageId, userId).0;
    if Authored(messages, messageId, userId).None? {
      RemoveNothing(messages, p);
    }
    KeyedSub(messages, kept, MessageKey);
  }

  /** After an update the author reads back exactly the patched message. */
  lemma UpdateReadBack(messages: seq<Message>, messageId: Id, userId: Id, content: Option<string>)
    requires KeyedBy(messages, MessageKey) && Authored(messages, messageId, userId).Some?
    ensures var v := PatchedMessage(Authored(messages, messageId, userId).value, content);
      Authored(ReplaceKeyed(messages, MessageKey, messageId, v), messageId, userId) == Some(v)
  {
    var m := Authored(messages, messageId, userId).value;
    var v := PatchedMessage(m, content);
    var i :| 0 <= i < |messages| && messages[i] == m;
    ReplaceKeyedAt(messages, MessageKey, messageId, v, i);
    KeyedReplace(messages, i, v, MessageKey);
    var r := messages[i := v];
    assert r[i] == v;
  }

  lemma CreateConsistent(t: Tables, m: Message)
    requires Consistent(t)
    requires m.id == t.nextId && m.chatId in ChatIds(t.chats) && m.userId in UserIds(t.users)
    ensures Consistent(t.(messages := t.messages + [m], nextId := t.nextId + 1))
  {
    KeyedAppend(t.messages, m, MessageKey);
  }

  lemma DropConsistent(t: Tables, ms: seq<Message>)
    requires Consistent(t) && multiset(ms) <= multiset(t.messages)
    ensures Consistent(t.(messages := ms))
  {
    KeyedSub(t.messages, ms, MessageKey);
    forall m | m in ms ensures m in t.messages {
      assert m in multiset(ms);
    }
  }

  lemma PatchConsistent(t: Tables, m: Message, content: Option<string>)
    requires Consistent(t) && m in t.messages
    ensures Consistent(t.(messages := ReplaceKeyed(t.messages, MessageKey, m.id, PatchedMessage(m, content))))
  {
    var i :| 0 <= i < |t.messages| && t.messages[i] == m;
    var v := PatchedMessage(m, content);
    ReplaceKeyedAt(t.messages, MessageKey, m.id, v, i);
    KeyedReplace(t.messages, i, v, MessageKey);
    var r := t.messages[i := v];
    forall x | x in r ensures x in t.messages || x == v {
      var j :| 0 <= j < |r| && r[j] == x;
    }
  }

  /** `MessageRepository`: statements over the shared session. */
  class MessageRepository {
    const db: Database

    constructor (db: Database)
      ensures this.db == db
    {
      this.db := db;
    }

    /** `create`: insert a message; chat and author foreign keys must hold. */
    method Create(chatId: Id, content: string, userId: Id, createdAt: int) returns (r: Result<Message>)
      requires db.Valid()
      modifies db
      ensures db.Valid()
      ensures !(chatId in ChatIds(old(db.chats)) && userId in UserIds(old(db.users))) ==>
        r == Err(IntegrityError) && db.State() == old(db.State())
      ensures chatId in ChatIds(old(db.chats)) && userId in UserIds(old(db.users)) ==>
        && r == Ok(Message(old(db.nextId), content, createdAt, chatId, userId))
        && db.State() == old(db.State()).(messages := old(db.messages) + [r.value], nextId := old(db.nextId) + 1)
    {
      if !(chatId in ChatIds(db.chats) && userId in UserIds(db.users)) {
        return Err(IntegrityError);
      }
      var m := Message(db.nextId, content, createdAt, chatId, userId);
      ghost var after := db.State().(messages := db.messages + [m], nextId := db.nextId + 1);
      CreateConsistent(db.State(), m);
      db.messages := db.messages + [m];
      db.nextId := db.nextId + 1;
      assert db.State() == after;
      r := Ok(m);
    }

    /** `delete(message_id=..., user_id=...)`. */
    method Delete(messageId: Id, userId: Id) returns (n: nat)
      requires db.Valid()
      modifies db
      ensures db.Valid()
      ensures (db.messages, n) == DeleteAuthored(old(db.messages), messageId, userId)
      ensures db.State() == old(db.State()).(messages := db.messages)
    {
      var res := DeleteAuthored(db.messages, messageId, userId);
      ghost var after := db.State().(messages := res.0);
      DropConsistent(db.State(), res.0);
      db.messages := res.0;
      assert db.State() == after;
      n := res.1;
    }

    /** `delete_multi(chat_id)`. */
    method DeleteMulti(chatId: Id) returns (n: nat)
      requires db.Valid()
      modifies db
      ensures db.Valid()
      ensures (db.messages, n) == DeleteOfChat(old(db.messages), chatId)
      ensures db.State() == old(db.State()).(messages := db.messages)
    {
      var res := DeleteOfChat(db.messages, chatId);
      ghost var after := db.State().(messages := res.0);
      DropConsistent(db.State(), res.0);
      db.messages := res.0;
      assert db.State() == after;
      n := res.1;
    }

    /** `update(data, message_id=..., user_id=...)`: `scalar_one` raises when
        no row matched both filters. */
    method Update(messageId: Id, userId: Id, content: Option<string>) returns (r: Result<Message>)
      requires db.Valid()
      modifies db
      ensures db.Valid()
      ensures Authored(old(db.messages), messageId, userId).None? ==>
        r == Err(NoResultFound) && db.State() == old(db.State())
      ensures Authored(old(db.messages), messageId, userId).Some? ==>
        && r == Ok(PatchedMessage(Authored(old(db.messages), messageId, userId).value, content))
        && db.State() == old(db.State()).(messages := ReplaceKeyed(old(db.messages), MessageKey, messageId, r.value))
    {
      var hit := Authored(db.messages, messageId, userId);
      if hit.None? {
        return Err(NoResultFound);
      }
      var v := PatchedMessage(hit.value, content);
      ghost var after := db.State().(messages := ReplaceKeyed(db.messages, MessageKey, messageId, v));
      PatchConsistent(db.State(), hit.value, content);
      db.messages := ReplaceKeyed(db.messages, MessageKey, messageId, v);
      assert db.State() == after;
      r := Ok(v);
    }
  }
}
