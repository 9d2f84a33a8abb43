/** The `/api/chats` routes: conversation fetch, send, unread counts and
    mark-read. Each route takes the caller's id (already authenticated) and
    returns the new store, the HTTP reply and the socket events emitted. */
module ChatRoutes {
  import opened Common
  import opened Text
  import opened Store
  import opened Ordering
  import opened Presence

  datatype Outcome<+T> = Outcome(db: Db, reply: Reply<T>, emits: seq<Emit>)

  const ONLY_FRIENDS := "You can only chat with friends"
  const CONTENT_REQUIRED := "Message content is required"

  /** Both directions of the conversation between `a` and `b`, oldest first. */
  function Conversation(msgs: seq<Message>, a: UserId, b: UserId): (r: seq<Message>)
    ensures Sorted(r, false)
    ensures multiset(r) == multiset(Filter(msgs, (m: Message) => Between(m, a, b)))
    ensures forall m :: m in r <==> m in msgs && Between(m, a, b)
  {
    var f := Filter(msgs, (m: Message) => Between(m, a, b));
    var r := SortBy(f, false);
    assert forall m :: m in r <==> m in f by {
      forall m ensures m in r <==> m in f {
        assert m in r <==> m in multiset(r);
        assert m in f <==> m in multiset(f);
      }
    }
    r
  }

  /** GET `/:friendId`. The list is read before the read marks are applied,
      so it shows the friend's messages as they were. */
  function GetConversation(h: Hub, db: Db, me: UserId, friendId: UserId): (r: Outcome<seq<Message>>)
    ensures !AreFriends(db.requests, me, friendId) ==> r == Outcome(db, Err(FORBIDDEN, ONLY_FRIENDS), [])
    ensures AreFriends(db.requests, me, friendId) ==>
              && r.reply.Ok? && r.reply.code == OK
              && Sorted(r.reply.value, false)
              && multiset(r.reply.value) == multiset(Filter(db.messages, (m: Message) => Between(m, me, friendId)))
              && (forall m :: m in r.reply.value <==> m in db.messages && Between(m, me, friendId))
              && r.db == db.(messages := MarkConversationRead(db.messages, friendId, me))
              && r.emits == EmitToUser(h, friendId, MessagesRead(me)).emits
  {
    if !AreFriends(db.requests, me, friendId) then Outcome(db, Err(FORBIDDEN, ONLY_FRIENDS), [])
    else
      var list := Conversation(db.messages, me, friendId);
      Outcome(db.(messages := MarkConversationRead(db.messages, friendId, me)), Ok(OK, list),
              EmitToUser(h, friendId, MessagesRead(me)).emits)
  }

  /** POST `/`: `content` is "" when absent. */
  function PostMessage(h: Hub, db: Db, me: UserId, receiverId: UserId, content: string,
                       newId: string, now: nat): (r: Outcome<Message>)
    ensures AllWhitespace(content) ==> r == Outcome(db, Err(BAD_REQUEST, CONTENT_REQUIRED), [])
    ensures !AllWhitespace(content) && !AreFriends(db.requests, me, receiverId) ==>
              r == Outcome(db, Err(FORBIDDEN, ONLY_FRIENDS), [])
    ensures !AllWhitespace(content) && AreFriends(db.requests, me, receiverId) ==>
              && r.reply.Ok? && r.reply.code == CREATED
              && var m := r.reply.value;
              && m == Message(newId, me, receiverId, Trim(content), false, now)
              && m.content != []
              && r.db == db.(messages := db.messages + [m])
              && r.emits == BroadcastMessage(h, m)
  {
    TrimEmptyIffAllWhitespace(content);
    if content == [] || Trim(content) == [] then Outcome(db, Err(BAD_REQUEST, CONTENT_REQUIRED), [])
    else if !AreFriends(db.requests, me, receiverId) then Outcome(db, Err(FORBIDDEN, ONLY_FRIENDS), [])
    else
      var m := Message(newId, me, receiverId, Trim(content), false, now);
      Outcome(db.(messages := db.messages + [m]), Ok(CREATED, m), BroadcastMessage(h, m))
  }

  /** The REST send and the socket send store the same message for the same
      friendly, non-blank request. */
  lemma RestAndSocketSendAgree(h: Hub, db: Db, sid: SocketId, me: UserId, receiverId: UserId, content: string,
                               tempId: string, newId: string, now: nat)
    requires sid in h.sockets && h.sockets[sid].userId == Some(me)
    requires !AllWhitespace(content) && AreFriends(db.requests, me, receiverId)
    ensures PostMessage(h, db, me, receiverId, content, newId, now).db
            == SendMessage(h, db, sid, receiverId, content, tempId, newId, now, false).db
  {
  }

  /** Unread messages addressed to `me`. */
  function UnreadTo(msgs: seq<Message>, me: UserId): nat
  {
    if |msgs| == 0 then 0
    else UnreadTo(msgs[..|msgs| - 1], me) + (if msgs[|msgs| - 1].receiver == me && !msgs[|msgs| - 1].isRead then 1 else 0)
  }

  /** Unread messages from `sender` to `me`. */
  function UnreadFrom(msgs: seq<Message>, sender: UserId, me: UserId): nat
  {
    if |msgs| == 0 then 0
    else UnreadFrom(msgs[..|msgs| - 1], sender, me) + (if Unread(msgs[|msgs| - 1], sender, me) then 1 else 0)
  }

  /** The running count agrees with counting the `countDocuments` filter
      directly. */
  lemma {:induction false} UnreadToCounts(msgs: seq<Message>, me: UserId)
    ensures UnreadTo(msgs, me) == CountWhere(msgs, (m: Message) => m.receiver == me && !m.isRead)
    decreases |msgs|
  {
    if |msgs| > 0 {
      UnreadToCounts(msgs[..|msgs| - 1], me);
    }
  }

  /** GET `/unread/count`. */
  function UnreadCount(db: Db, me: UserId): (r: Reply<nat>)
    ensures r.Ok? && r.code == OK
    ensures r.value == CountWhere(db.messages, (m: Message) => m.receiver == me && !m.isRead)
  {
    UnreadToCounts(db.messages, me);
    Ok(OK, UnreadTo(db.messages, me))
  }

  /** One row of the `$group` stage: a sender and how many unread messages
      it has for the caller. */
  datatype Group = Group(sender: UserId, count: nat)

  predicate DistinctSenders(gs: seq<Group>)
  {
    forall i, j :: 0 <= i < j < |gs| ==> gs[i].sender != gs[j].sender
  }

  function Total(gs: seq<Group>): nat
  {
    if |gs| == 0 then 0 else Total(gs[..|gs| - 1]) + gs[|gs| - 1].count
  }

  lemma {:induction false} TotalAppend(gs: seq<Group>, g: Group)
    ensures Total(gs + [g]) == Total(gs) + g.count
  {
    assert (gs + [g])[..|gs|] == gs;
  }

  /** Add one to `s`'s row, or start a row for `s`. */
  function Bump(gs: seq<Group>, s: UserId): (r: seq<Group>)
    requires DistinctSenders(gs)
    ensures DistinctSenders(r)
    ensures forall g :: g in r ==> g in gs || g.sender == s
    ensures forall g :: g in r && g.sender == s ==> g.count == CountOf(gs, s) + 1
    decreases |gs|
  {
    if |gs| == 0 then [Group(s, 1)]
    else
      var last := gs[|gs| - 1];
      var init := gs[..|gs| - 1];
      if last.sender == s then
        assert forall i :: 0 <= i < |init| ==> init[i].sender != s;
        CountOfAbsent(init, s);
        init + [Group(s, last.count + 1)]
      else
        var b := Bump(init, s);
        assert forall i :: 0 <= i < |b| ==> b[i] in b;
        b + [last]
  }

  lemma {:induction false} BumpTotal(gs: seq<Group>, s: UserId)
    requires DistinctSenders(gs)
    ensures Total(Bump(gs, s)) == Total(gs) + 1
    decreases |gs|
  {
    if |gs| == 0 {
      assert Total([Group(s, 1)]) == Total([]) + 1 by { TotalAppend([], Group(s, 1)); }
    } else {
      var last := gs[|gs| - 1];
      var init := gs[..|gs| - 1];
      assert gs == init + [last];
      TotalAppend(init, last);
      if last.sender == s {
        TotalAppend(init, Group(s, last.count + 1));
      } else {
        BumpTotal(init, s);
        TotalAppend(Bump(init, s), last);
      }
    }
  }

  /** The count recorded for `s`, or 0 when `s` has no row. */
  function CountOf(gs: seq<Group>, s: UserId): nat
  {
    if |gs| == 0 then 0
    else if gs[|gs| - 1].sender == s then gs[|gs| - 1].count
    else CountOf(gs[..|gs| - 1], s)
  }

  lemma {:induction false} CountOfAbsent(gs: seq<Group>, s: UserId)
    requires forall i :: 0 <= i < |gs| ==> gs[i].sender != s
    ensures CountOf(gs, s) == 0
  {
    if |gs| > 0 {
      CountOfAbsent(gs[..|gs| - 1], s);
    }
  }

  /** The `$match`/`$group` aggregation: the caller's unread messages
      grouped by sender. */
  function GroupUnread(msgs: seq<Message>, me: UserId): (gs: seq<Group>)
    ensures DistinctSenders(gs)
    ensures Total(gs) == UnreadTo(msgs, me)
    ensures forall g :: g in gs ==> g.count >= 1
    ensures forall s :: CountOf(gs, s) == UnreadFrom(msgs, s, me)
  {
    if |msgs| == 0 then []
    else
      var init := msgs[..|msgs| - 1];
      var m := msgs[|msgs| - 1];
      var prev := GroupUnread(init, me);
      if m.receiver == me && !m.isRead then
        var r := Bump(prev, m.sender);
        BumpTotal(prev, m.sender);
        forall s ensures CountOf(r, s) == UnreadFrom(msgs, s, me) {
          BumpCountOf(prev, m.sender, s);
        }
        r
      else prev
  }

  lemma {:induction false} BumpCountOf(gs: seq<Group>, s: UserId, t: UserId)
    requires DistinctSenders(gs)
    ensures CountOf(Bump(gs, s), t) == CountOf(gs, t) + (if t == s then 1 else 0)
    decreases |gs|
  {
    if |gs| > 0 {
      var last := gs[|gs| - 1];
      var init := gs[..|gs| - 1];
      if last.sender != s {
        BumpCountOf(init, s, t);
        var b := Bump(init, s);
        assert (b + [last])[..|b|] == b;
      } else {
        var r := init + [Group(s, last.count + 1)];
        assert r[..|init|] == init;
      }
    }
  }

  /** `unreadCounts[sender] = count` for each row. */
  function ToCounts(gs: seq<Group>): map<UserId, nat>
  {
    if |gs| == 0 then map[]
    else ToCounts(gs[..|gs| - 1])[gs[|gs| - 1].sender := gs[|gs| - 1].count]
  }

  /** The map has a key per row and, senders being distinct, each key holds
      its own row's count. */
  lemma {:induction false} ToCountsRows(gs: seq<Group>)
    requires DistinctSenders(gs)
    ensures ToCounts(gs).Keys == SendersOf(gs)
    ensures forall i :: 0 <= i < |gs| ==> ToCounts(gs)[gs[i].sender] == gs[i].count
  {
    if |gs| > 0 {
      ToCountsRows(gs[..|gs| - 1]);
      ToCountsLastKey(gs);
      ToCountsLastRow(gs);
    }
  }

  /** Writing the last row adds its sender to the keys. */
  lemma ToCountsLastKey(gs: seq<Group>)
    requires |gs| > 0 && ToCounts(gs[..|gs| - 1]).Keys == SendersOf(gs[..|gs| - 1])
    ensures ToCounts(gs).Keys == SendersOf(gs)
  {
    var init := gs[..|gs| - 1];
    SendersOfSnoc(init, gs[|gs| - 1]);
    assert gs == init + [gs[|gs| - 1]];
  }

  /** Writing the last row keeps every earlier row's count, senders being
      distinct. */
  lemma ToCountsLastRow(gs: seq<Group>)
    requires |gs| > 0 && DistinctSenders(gs)
    requires var init := gs[..|gs| - 1];
             forall j :: 0 <= j < |init| ==> init[j].sender in ToCounts(init) && ToCounts(init)[init[j].sender] == init[j].count
    ensures forall i :: 0 <= i < |gs| ==> gs[i].sender in ToCounts(gs) && ToCounts(gs)[gs[i].sender] == gs[i].count
  {
    var init := gs[..|gs| - 1];
    var last := gs[|gs| - 1];
    forall i | 0 <= i < |gs| ensures gs[i].sender in ToCounts(gs) && ToCounts(gs)[gs[i].sender] == gs[i].count {
      if i < |gs| - 1 {
        assert gs[i] == init[i] && gs[i].sender != last.sender;
      }
    }
  }

  lemma SendersOfSnoc(gs: seq<Group>, g: Group)
    ensures SendersOf(gs + [g]) == SendersOf(gs) + {g.sender}
  {
    var t := gs + [g];
    forall s | s in SendersOf(gs) ensures s in SendersOf(t) {
      var i :| 0 <= i < |gs| && gs[i].sender == s;
      assert t[i] == gs[i];
    }
    assert t[|gs|] == g;
  }

  function SendersOf(gs: seq<Group>): (r: set<UserId>)
    ensures forall s :: s in r <==> exists i :: 0 <= i < |gs| && gs[i].sender == s
  {
    set i | 0 <= i < |gs| :: gs[i].sender
  }

  /** GET `/unread/per-friend`: every key has at least one unread message,
      each value is that sender's unread count, and the rows add up to the
      total unread count. */
  function UnreadPerFriend(db: Db, me: UserId): (r: Reply<map<UserId, nat>>)
    ensures r.Ok? && r.code == OK
    ensures forall s :: s in r.value ==> r.value[s] >= 1 && r.value[s] == UnreadFrom(db.messages, s, me)
    ensures forall s :: s !in r.value ==> UnreadFrom(db.messages, s, me) == 0
    ensures Total(GroupUnread(db.messages, me)) == UnreadTo(db.messages, me)
    ensures r.value.Keys == SendersOf(GroupUnread(db.messages, me))
  {
    var gs := GroupUnread(db.messages, me);
    var counts := ToCounts(gs);
    ToCountsRows(gs);
    forall s | s in counts ensures counts[s] >= 1 && counts[s] == UnreadFrom(db.messages, s, me) {
      var i :| 0 <= i < |gs| && gs[i].sender == s;
      assert gs[i] in gs;
      CountOfRow(gs, i);
    }
    forall s | s !in counts ensures UnreadFrom(db.messages, s, me) == 0 {
      CountOfAbsent(gs, s);
    }
    Ok(OK, counts)
  }

  lemma {:induction false} CountOfRow(gs: seq<Group>, i: nat)
    requires DistinctSenders(gs) && i < |gs|
    ensures CountOf(gs, gs[i].sender) == gs[i].count
    decreases |gs|
  {
    if i < |gs| - 1 {
      CountOfRow(gs[..|gs| - 1], i);
    }
  }

  /** PUT `/mark-read/:friendId`. */
  function MarkReadRoute(h: Hub, db: Db, me: UserId, friendId: UserId): (r: Outcome<bool>)
    ensures r.reply == Ok(OK, true)
    ensures r.db.users == db.users && r.db.requests == db.requests
    ensures |r.db.messages| == |db.messages|
    ensures forall i :: 0 <= i < |db.messages| ==>
              (Unread(db.messages[i], friendId, me) ==> r.db.messages[i] == db.messages[i].(isRead := true))
              && (!Unread(db.messages[i], friendId, me) ==> r.db.messages[i] == db.messages[i])
    ensures r.emits == EmitToUser(h, friendId, MessagesRead(me)).emits
  {
    Outcome(db.(messages := MarkConversationRead(db.messages, friendId, me)), Ok(OK, true),
            EmitToUser(h, friendId, MessagesRead(me)).emits)
  }

  /** The REST route and the socket handler converge: same store update,
      same `messages-read` notification. */
  lemma RestAndSocketMarkReadAgree(h: Hub, db: Db, sid: SocketId, me: UserId, friendId: UserId)
    requires sid in h.sockets && h.sockets[sid].userId == Some(me)
    ensures MarkRead(h, db, sid, friendId).db == MarkReadRoute(h, db, me, friendId).db
    ensures MarkRead(h, db, sid, friendId).emits == MarkReadRoute(h, db, me, friendId).emits
  {
  }

  /** Mark-read clears exactly the friend's share of the unread count. */
  lemma {:induction false} MarkReadLowersUnread(msgs: seq<Message>, friendId: UserId, me: UserId)
    ensures UnreadFrom(MarkConversationRead(msgs, friendId, me), friendId, me) == 0
    ensures UnreadTo(MarkConversationRead(msgs, friendId, me), me) == UnreadTo(msgs, me) - UnreadFrom(msgs, friendId, me)
    ensures UnreadFrom(msgs, friendId, me) <= UnreadTo(msgs, me)
  {
    if |msgs| > 0 {
      var init := msgs[..|msgs| - 1];
      MarkReadLowersUnread(init, friendId, me);
      var r := MarkConversationRead(msgs, friendId, me);
      assert r[..|r| - 1] == MarkConversationRead(init, friendId, me);
    }
  }
}
