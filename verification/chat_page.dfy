/** The chat page's bookkeeping: per-friend unread counters and their
    total, the friend list and the open chat, updated by socket events and
    by selecting a friend. */
module ChatPage {
  import opened Common
  import opened Store
  import opened ClientModel

  /** `unreadCounts`, `unreadCount`, `friends` and `selectedFriend`. */
  datatype Page = Page(counts: map<UserId, nat>, total: nat, friends: seq<Friend>, selected: Option<Friend>)

  /** `prev[id] || 0`. */
  function CountFor(counts: map<UserId, nat>, id: UserId): nat
  {
    if id in counts then counts[id] else 0
  }

  /** The open chat's friend id, "" when no chat is open. */
  function SelectedId(p: Page): UserId
  {
    if p.selected.Some? then p.selected.value.id else ""
  }

  /** `new-message`: a message from someone other than the caller and
      other than the open chat's friend adds one to that sender's counter
      and one to the total. */
  function OnNewMessage(p: Page, me: UserId, sender: UserId): (r: Page)
    ensures r.friends == p.friends && r.selected == p.selected
    ensures sender == me || sender == SelectedId(p) ==> r == p
    ensures sender != me && sender != SelectedId(p) ==>
              && r.total == p.total + 1
              && CountFor(r.counts, sender) == CountFor(p.counts, sender) + 1
              && r.counts.Keys == p.counts.Keys + {sender}
              && forall k :: k in p.counts && k != sender ==> r.counts[k] == p.counts[k]
  {
    if sender == me then p
    else if sender != SelectedId(p) then
      p.(counts := p.counts[sender := CountFor(p.counts, sender) + 1], total := p.total + 1)
    else p
  }

  /** `Math.max(0, current - removed)`. */
  function Lowered(total: nat, removed: nat): (t: nat)
    ensures t <= total
    ensures removed <= total ==> t + removed == total
    ensures removed > total ==> t == 0
  {
    if total >= removed then total - removed else 0
  }

  /** `messages-read{readBy}`: the reader's counter goes, and the total
      drops by what it held. */
  function OnMessagesRead(p: Page, readBy: UserId): (r: Page)
    ensures readBy !in r.counts
    ensures forall k :: k in r.counts <==> k in p.counts && k != readBy
    ensures forall k :: k in r.counts ==> r.counts[k] == p.counts[k]
    ensures r.total == Lowered(p.total, CountFor(p.counts, readBy))
    ensures r.friends == p.friends && r.selected == p.selected
  {
    p.(counts := p.counts - {readBy}, total := Lowered(p.total, CountFor(p.counts, readBy)))
  }

  /** Selecting a friend opens the chat and clears that friend's counter;
      the total is only touched when something was removed. */
  function OnSelectFriend(p: Page, f: Friend): (r: Page)
    ensures r.selected == Some(f) && r.friends == p.friends
    ensures f.id !in r.counts
    ensures forall k :: k in r.counts <==> k in p.counts && k != f.id
    ensures CountFor(p.counts, f.id) == 0 ==> r.total == p.total
  {
    var removed := CountFor(p.counts, f.id);
    p.(selected := Some(f), counts := p.counts - {f.id},
       total := if removed > 0 then Lowered(p.total, removed) else p.total)
  }

  /** Selecting a friend and that friend's `messages-read` leave the same
      counters and total: the guard on an empty removal changes nothing. */
  lemma SelectAgreesWithRead(p: Page, f: Friend)
    ensures OnSelectFriend(p, f).counts == OnMessagesRead(p, f.id).counts
    ensures OnSelectFriend(p, f).total == OnMessagesRead(p, f.id).total
  {
  }

  /** A second `messages-read` from the same reader changes nothing. */
  lemma MessagesReadIdempotent(p: Page, readBy: UserId)
    ensures OnMessagesRead(OnMessagesRead(p, readBy), readBy) == OnMessagesRead(p, readBy)
  {
    var once := OnMessagesRead(p, readBy);
    assert once.counts - {readBy} == once.counts;
  }

  /** A message from a friend with no counter, read afterwards, leaves the
      counters and the total where they were. */
  lemma NewThenReadRestores(p: Page, me: UserId, sender: UserId)
    requires sender != me && sender != SelectedId(p) && sender !in p.counts
    ensures OnMessagesRead(OnNewMessage(p, me, sender), sender) == p
  {
    var q := OnNewMessage(p, me, sender);
    assert q.counts - {sender} == p.counts;
  }

  /** `user-status`: the friend list is patched entry by entry and the open
      chat's friend only when the ids match. */
  function OnUserStatus(p: Page, userId: UserId, isOnline: bool, lastSeen: Option<nat>): (r: Page)
    ensures r.counts == p.counts && r.total == p.total
    ensures r.friends == PatchFriends(p.friends, userId, isOnline, lastSeen)
    ensures p.selected.Some? && p.selected.value.id == userId ==>
              r.selected == Some(PatchStatus(p.selected.value, isOnline, lastSeen))
    ensures !(p.selected.Some? && p.selected.value.id == userId) ==> r.selected == p.selected
  {
    p.(friends := PatchFriends(p.friends, userId, isOnline, lastSeen),
       selected := if p.selected.Some? && p.selected.value.id == userId
                   then Some(PatchStatus(p.selected.value, isOnline, lastSeen)) else p.selected)
  }

  /** After a status event, every entry for that user shows the new
      presence, and repeating the event changes nothing. */
  lemma UserStatusSettles(p: Page, userId: UserId, isOnline: bool, lastSeen: Option<nat>)
    ensures var r := OnUserStatus(p, userId, isOnline, lastSeen);
            && (forall f :: f in r.friends && f.id == userId ==> f.isOnline == isOnline)
            && OnUserStatus(r, userId, isOnline, lastSeen) == r
  {
    var r := OnUserStatus(p, userId, isOnline, lastSeen);
    PatchFriendsIdempotent(p.friends, userId, isOnline, lastSeen);
    forall f | f in r.friends && f.id == userId ensures f.isOnline == isOnline {
      var i :| 0 <= i < |r.friends| && r.friends[i] == f;
    }
  }
}
