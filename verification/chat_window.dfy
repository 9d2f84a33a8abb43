/** The chat window's message list: live messages, the optimistic send with
    its temporary entry, and the replies that settle it. */
module ChatWindow {
  import opened Common
  import opened Text
  import opened Store
  import opened ClientModel
  import opened Presence

  /** One row of the list. `sending` marks the optimistic entry that a
      server copy has not yet replaced. */
  datatype Entry = Entry(id: string, sender: UserId, receiver: UserId, content: string, sending: bool)

  /** A server message as a list row. */
  function Row(m: Message): (e: Entry)
    ensures e.id == m.id && e.content == m.content && !e.sending
  {
    Entry(m.id, m.sender, m.receiver, m.content, false)
  }

  predicate HasId(list: seq<Entry>, id: string)
  {
    exists i :: 0 <= i < |list| && list[i].id == id
  }

  /** `findIndex` for the first row satisfying `p`. */
  function IndexWhere(list: seq<Entry>, p: Entry -> bool): (r: Option<nat>)
    ensures r.Some? ==> r.value < |list| && p(list[r.value]) && forall j :: 0 <= j < r.value ==> !p(list[j])
    ensures r.None? <==> forall j :: 0 <= j < |list| ==> !p(list[j])
  {
    if |list| == 0 then None
    else if p(list[0]) then Some(0)
    else match IndexWhere(list[1..], p)
      case None => None
      case Some(i) => Some(i + 1)
  }

  /** The message belongs to the open conversation: friend to me or me to
      friend. An empty id on either side (not loaded yet) admits nothing. */
  predicate Relevant(m: Message, me: UserId, friend: UserId)
  {
    me != "" && friend != "" &&
    ((m.sender == friend && m.receiver == me) || (m.sender == me && m.receiver == friend))
  }

  /** What `new-message` leaves: the list, and whether the window asks the
      server to mark the conversation read. */
  datatype Applied = Applied(list: seq<Entry>, markRead: bool)

  /** `new-message`. A known id changes nothing; a message of mine takes
      the place of the first pending row with the same text; anything else
      is appended. */
  function OnNewMessage(list: seq<Entry>, me: UserId, friend: UserId, m: Message): (r: Applied)
    ensures !Relevant(m, me, friend) ==> r == Applied(list, false)
    ensures Relevant(m, me, friend) ==> r.markRead == (m.sender == friend)
    ensures Relevant(m, me, friend) && HasId(list, m.id) ==> r.list == list
    ensures Relevant(m, me, friend) && !HasId(list, m.id) ==>
              var pending := IndexWhere(list, (e: Entry) => e.sending && e.content == m.content);
              && (m.sender == me && pending.Some? ==> r.list == list[pending.value := Row(m)])
              && (m.sender != me || pending.None? ==> r.list == list + [Row(m)])
    ensures HasId(r.list, m.id) <==> HasId(list, m.id) || Relevant(m, me, friend)
  {
    if !Relevant(m, me, friend) then Applied(list, false)
    else
      var fromFriend := m.sender == friend;
      if HasId(list, m.id) then Applied(list, fromFriend)
      else
        var pending := IndexWhere(list, (e: Entry) => e.sending && e.content == m.content);
        if m.sender == me && pending.Some? then
          var r := list[pending.value := Row(m)];
          assert r[pending.value].id == m.id;
          Applied(r, fromFriend)
        else
          var r := list + [Row(m)];
          assert r[|list|].id == m.id;
          Applied(r, fromFriend)
  }

  /** Delivering the same `new-message` twice is delivering it once. */
  lemma NewMessageIdempotent(list: seq<Entry>, me: UserId, friend: UserId, m: Message)
    ensures OnNewMessage(OnNewMessage(list, me, friend, m).list, me, friend, m).list
            == OnNewMessage(list, me, friend, m).list
  {
  }

  /** `message-sent`: the row carrying `tempId` is replaced in place; with
      no such row the message is appended unless its id is already there.
      Unlike `new-message`, this handler does not check which conversation
      the message belongs to. */
  function OnMessageSent(list: seq<Entry>, m: Message, tempId: string): (r: seq<Entry>)
    ensures HasId(list, tempId) ==>
              var i := IndexWhere(list, (e: Entry) => e.id == tempId).value;
              r == list[i := Row(m)]
    ensures !HasId(list, tempId) && !HasId(list, m.id) ==> r == list + [Row(m)]
    ensures !HasId(list, tempId) && HasId(list, m.id) ==> r == list
    ensures HasId(r, m.id)
  {
    match IndexWhere(list, (e: Entry) => e.id == tempId)
    case Some(i) =>
      var r := list[i := Row(m)];
      assert r[i].id == m.id;
      r
    case None =>
      if !HasId(list, m.id) then
        var r := list + [Row(m)];
        assert r[|list|].id == m.id;
        r
      else list
  }

  /** The acknowledgement of an optimistic send settles it: the pending
      row becomes the stored message in place... */
  lemma AckSettlesSend(list: seq<Entry>, input: string, me: UserId, friend: UserId, tempId: string, m: Message)
    requires !HasId(list, tempId)
    requires !AllWhitespace(input) && me != "" && friend != ""
    ensures OnMessageSent(SendOptimistic(list, input, me, friend, tempId).list, m, tempId) == list + [Row(m)]
  {
    var sent := SendOptimistic(list, input, me, friend, tempId).list;
    assert sent[|list|].id == tempId;
    assert IndexWhere(sent, (e: Entry) => e.id == tempId) == Some(|list|);
  }

  /** ...and a repeated acknowledgement changes nothing more. */
  lemma AckTwiceIsOnce(list: seq<Entry>, input: string, me: UserId, friend: UserId, tempId: string, m: Message)
    requires !HasId(list, tempId) && m.id != tempId
    requires !AllWhitespace(input) && me != "" && friend != ""
    ensures var once := OnMessageSent(SendOptimistic(list, input, me, friend, tempId).list, m, tempId);
            OnMessageSent(once, m, tempId) == once
  {
    AckSettlesSend(list, input, me, friend, tempId, m);
    var once := list + [Row(m)];
    assert once[|list|].id == m.id;
    assert !HasId(once, tempId) by {
      forall i | 0 <= i < |once| ensures once[i].id != tempId {
        if i < |list| { assert once[i] == list[i]; }
      }
    }
  }

  /** What a send leaves: the list, the input box, and the trimmed text
      posted to the server (`None` when nothing is sent). */
  datatype Sent = Sent(list: seq<Entry>, input: string, posted: Option<string>)

  /** Submitting the input box: blank input sends nothing; otherwise one
      pending row with the fresh `tempId` and the trimmed text is appended,
      the box is cleared and the text is posted. Without both ids nothing
      is sent either. */
  function SendOptimistic(list: seq<Entry>, input: string, me: UserId, friend: UserId, tempId: string): (r: Sent)
    ensures AllWhitespace(input) || me == "" || friend == "" ==> r == Sent(list, input, None)
    ensures !AllWhitespace(input) && me != "" && friend != "" ==>
              && r.list == list + [Entry(tempId, me, friend, Trim(input), true)]
              && r.input == ""
              && r.posted == Some(Trim(input))
              && Trim(input) != ""
  {
    TrimEmptyIffAllWhitespace(input);
    var content := Trim(input);
    if content == "" || me == "" || friend == "" then Sent(list, input, None)
    else Sent(list + [Entry(tempId, me, friend, content, true)], "", Some(content))
  }

  /** The REST reply arrived: the temporary row, if still there, becomes
      the stored message in place. */
  function OnSendSuccess(list: seq<Entry>, tempId: string, m: Message): (r: seq<Entry>)
    ensures |r| == |list|
    ensures HasId(list, tempId) ==>
              var i := IndexWhere(list, (e: Entry) => e.id == tempId).value;
              r == list[i := Row(m)]
    ensures !HasId(list, tempId) ==> r == list
  {
    match IndexWhere(list, (e: Entry) => e.id == tempId)
    case Some(i) => list[i := Row(m)]
    case None => list
  }

  /** The REST call failed: every row with the temporary id goes, nothing
      else does, and the text returns to the input box. */
  function OnSendFailure(list: seq<Entry>, tempId: string, content: string): (r: (seq<Entry>, string))
    ensures r.1 == content
    ensures forall e :: e in r.0 <==> e in list && e.id != tempId
    ensures IsSubsequence(r.0, list)
    ensures |r.0| == CountWhere(list, (e: Entry) => e.id != tempId)
  {
    FilterIsSubsequence(list, (e: Entry) => e.id != tempId);
    (Filter(list, (e: Entry) => e.id != tempId), content)
  }

  /** A failed send takes back exactly what the send added. */
  lemma FailureUndoesSend(list: seq<Entry>, input: string, me: UserId, friend: UserId, tempId: string)
    requires !HasId(list, tempId)
    requires !AllWhitespace(input) && me != "" && friend != ""
    ensures var s := SendOptimistic(list, input, me, friend, tempId);
            OnSendFailure(s.list, tempId, s.posted.value) == (list, Trim(input))
  {
    var s := SendOptimistic(list, input, me, friend, tempId);
    var f := Filter(s.list, (e: Entry) => e.id != tempId);
    FilterKeepsAll(list, (e: Entry) => e.id != tempId);
    assert s.list == list + [s.list[|list|]];
    assert f == Filter(list, (e: Entry) => e.id != tempId);
  }

  /** No row of `list` is pending with this text. */
  predicate NoPendingWith(list: seq<Entry>, content: string)
  {
    forall i :: 0 <= i < |list| ==> !(list[i].sending && list[i].content == content)
  }

  /** The race between the REST reply and the echoed `new-message` for one
      send whose temporary row is the only pending row with that text:
      either order leaves the list with the stored message where the
      temporary row was, so exactly one row has the stored id and none
      keeps the temporary id. */
  lemma {:induction false} ReplyAndEchoCommute(list: seq<Entry>, input: string, me: UserId, friend: UserId,
                                               tempId: string, m: Message)
    requires !AllWhitespace(input) && me != "" && friend != ""
    requires !HasId(list, tempId) && !HasId(list, m.id) && m.id != tempId
    requires NoPendingWith(list, Trim(input))
    requires m.sender == me && m.receiver == friend && m.content == Trim(input)
    ensures var sent := SendOptimistic(list, input, me, friend, tempId).list;
            var replyFirst := OnNewMessage(OnSendSuccess(sent, tempId, m), me, friend, m).list;
            var echoFirst := OnSendSuccess(OnNewMessage(sent, me, friend, m).list, tempId, m);
            && replyFirst == list + [Row(m)]
            && echoFirst == list + [Row(m)]
            && !HasId(replyFirst, tempId)
            && forall i :: 0 <= i < |replyFirst| && replyFirst[i].id == m.id ==> i == |list|
  {
    var sent := SendOptimistic(list, input, me, friend, tempId).list;
    var n := |list|;
    assert sent[n].id == tempId;
    assert IndexWhere(sent, (e: Entry) => e.id == tempId) == Some(n);
    var settled := OnSendSuccess(sent, tempId, m);
    assert settled == list + [Row(m)];
    assert settled[n].id == m.id;
    assert IndexWhere(sent, (e: Entry) => e.sending && e.content == m.content) == Some(n);
    var echoed := OnNewMessage(sent, me, friend, m).list;
    assert echoed == list + [Row(m)];
    assert !HasId(echoed, tempId);
  }

  /** `user-typing`: only the open friend's indicator is taken. */
  function OnTyping(typing: bool, friend: UserId, userId: UserId, isTyping: bool): (r: bool)
    ensures userId == friend ==> r == isTyping
    ensures userId != friend ==> r == typing
  {
    if userId == friend then isTyping else typing
  }

  /** Typing end to end: when an authenticated socket of `u` relays
      `typing` to a routable receiver, the receiver gets exactly one
      `user-typing` event, and a window open on `u` takes the flag while a
      window open on anyone else keeps its own. An unroutable receiver gets
      nothing. */
  lemma TypingReachesOpenWindow(h: Hub, db: Db, sid: SocketId, u: UserId, receiverId: UserId, isTyping: bool,
                                shown: bool, open: UserId)
    requires sid in h.sockets && h.sockets[sid].userId == Some(u)
    ensures var r := Typing(h, db, sid, receiverId, isTyping);
            Route(h, receiverId).None? ==> r.emits == []
    ensures var r := Typing(h, db, sid, receiverId, isTyping);
            Route(h, receiverId).Some? ==>
              && |r.emits| == 1
              && r.emits[0].to == Route(h, receiverId).value
              && r.emits[0].event.UserTyping?
              && OnTyping(shown, open, r.emits[0].event.userId, r.emits[0].event.isTyping)
                 == (if open == u then isTyping else shown)
  {
  }

  /** `user-status`: only the open friend's record is patched. */
  function OnFriendStatus(friend: Friend, userId: UserId, isOnline: bool, lastSeen: Option<nat>): (r: Friend)
    ensures userId == friend.id ==> r == PatchStatus(friend, isOnline, lastSeen)
    ensures userId != friend.id ==> r == friend
  {
    if userId == friend.id then PatchStatus(friend, isOnline, lastSeen) else friend
  }

  /** The window and the page patch the open friend alike. */
  lemma WindowAndPageAgreeOnStatus(friend: Friend, userId: UserId, isOnline: bool, lastSeen: Option<nat>)
    ensures [OnFriendStatus(friend, userId, isOnline, lastSeen)] == PatchFriends([friend], userId, isOnline, lastSeen)
  {
  }
}
