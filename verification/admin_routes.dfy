/** The `/api/admin` routes: user listing, the message query, deleting a
    user, a user's friends, a two-party chat and the statistics. The
    `account-deleted` socket notification goes to a room and is not part of
    this model. */
module AdminRoutes {
  import opened Common
  import opened Store
  import opened Ordering
  import opened ChatRoutes

  const MESSAGE_LIMIT: nat := 100

  function PublicAll(us: seq<User>): (ps: seq<PublicUser>)
    ensures |ps| == |us|
    ensures forall i :: 0 <= i < |us| ==> ps[i] == Public(us[i])
  {
    if |us| == 0 then [] else [Public(us[0])] + PublicAll(us[1..])
  }

  /** GET `/users`: the non-admin users, passwords left out, store order. */
  function ListUsers(db: Db): (r: Reply<seq<PublicUser>>)
    ensures r.Ok? && r.code == OK
    ensures forall p :: p in r.value ==> !p.isAdmin
    ensures forall p :: p in r.value <==> exists u :: u in db.users && !u.isAdmin && p == Public(u)
    ensures |r.value| == CountWhere(db.users, (u: User) => !u.isAdmin)
    ensures forall i :: 0 <= i < |r.value| ==>
              i < |Filter(db.users, (u: User) => !u.isAdmin)| && r.value[i] == Public(Filter(db.users, (u: User) => !u.isAdmin)[i])
  {
    var kept := Filter(db.users, (u: User) => !u.isAdmin);
    var ps := PublicAll(kept);
    forall p | p in ps ensures exists u :: u in db.users && !u.isAdmin && p == Public(u) {
      var i :| 0 <= i < |ps| && ps[i] == p;
      assert kept[i] in kept;
    }
    forall u | u in db.users && !u.isAdmin ensures Public(u) in ps {
      assert u in kept;
      var i :| 0 <= i < |kept| && kept[i] == u;
      assert ps[i] == Public(u);
    }
    Ok(OK, ps)
  }

  /** The message query's filter: every message when `userId` is absent
      (""), otherwise those the user sent or received. */
  predicate Selected(m: Message, userId: UserId)
  {
    userId == "" || m.sender == userId || m.receiver == userId
  }

  /** The messages the query's filter selects, in store order. */
  function Selection(db: Db, userId: UserId): seq<Message>
  {
    Filter(db.messages, (m: Message) => Selected(m, userId))
  }

  /** GET `/messages?userId=`: newest first, at most a hundred. */
  function AdminMessages(db: Db, userId: UserId): (r: Reply<seq<Message>>)
    ensures r.Ok? && r.code == OK
    ensures |r.value| <= MESSAGE_LIMIT
    ensures Sorted(r.value, true)
    ensures forall m :: m in r.value ==> m in db.messages && Selected(m, userId)
    ensures |r.value| == (if |Selection(db, userId)| < MESSAGE_LIMIT then |Selection(db, userId)| else MESSAGE_LIMIT)
    ensures multiset(r.value) <= multiset(Selection(db, userId))
    ensures |Selection(db, userId)| <= MESSAGE_LIMIT ==> multiset(r.value) == multiset(Selection(db, userId))
  {
    var sorted := SortBy(Selection(db, userId), true);
    var r := Take(sorted, MESSAGE_LIMIT);
    TakeSorted(sorted, MESSAGE_LIMIT);
    PrefixMultiset(sorted, |r|);
    SelectionMembers(db, userId, r);
    Ok(OK, r)
  }

  /** Whatever a sub-multiset of the selection holds is a selected stored
      message. */
  lemma SelectionMembers(db: Db, userId: UserId, r: seq<Message>)
    requires multiset(r) <= multiset(Selection(db, userId))
    ensures forall m :: m in r ==> m in db.messages && Selected(m, userId)
  {
    forall m | m in r ensures m in db.messages && Selected(m, userId) {
      assert m in multiset(r);
      assert m in Selection(db, userId);
    }
  }

  lemma TakeSorted(s: seq<Message>, n: nat)
    requires Sorted(s, true)
    ensures Sorted(Take(s, n), true)
  {
    var r := Take(s, n);
    forall i, j | 0 <= i < j < |r| ensures Before(r[i], r[j], true) {
      assert r[i] == s[i] && r[j] == s[j];
    }
  }

  /** A prefix holds a sub-multiset of the whole. */
  lemma PrefixMultiset(s: seq<Message>, k: nat)
    requires k <= |s|
    ensures multiset(s[..k]) <= multiset(s)
  {
    assert s == s[..k] + s[k..];
  }

  /** What the limit cuts off is never newer than anything it keeps. */
  lemma AdminMessagesKeepNewest(db: Db, userId: UserId, m: Message)
    requires m in db.messages && Selected(m, userId) && m !in AdminMessages(db, userId).value
    ensures forall k :: 0 <= k < |AdminMessages(db, userId).value| ==>
              AdminMessages(db, userId).value[k].createdAt >= m.createdAt
  {
    var hits := Selection(db, userId);
    var sorted := SortBy(hits, true);
    assert m in hits;
    assert m in multiset(sorted);
    LimitKeepsNewest(sorted, MESSAGE_LIMIT, m);
  }

  /** Cutting a newest-first list loses nothing newer than what it keeps. */
  lemma LimitKeepsNewest(sorted: seq<Message>, n: nat, m: Message)
    requires Sorted(sorted, true) && m in sorted && m !in Take(sorted, n)
    ensures forall k :: 0 <= k < |Take(sorted, n)| ==> Take(sorted, n)[k].createdAt >= m.createdAt
  {
    var r := Take(sorted, n);
    var j :| 0 <= j < |sorted| && sorted[j] == m;
    assert j >= |r|;
    forall k | 0 <= k < |r| ensures r[k].createdAt >= m.createdAt {
      assert r[k] == sorted[k];
    }
  }

  /** DELETE `/users/:userId`: the user's messages in both directions go,
      then the user record; friend requests stay. */
  function DeleteUser(db: Db, userId: UserId): (r: Answer<bool>)
    ensures r.reply == Ok(OK, true)
    ensures r.db.requests == db.requests
    ensures forall m :: m in r.db.messages <==> m in db.messages && m.sender != userId && m.receiver != userId
    ensures forall u :: u in r.db.users <==> u in db.users && u.id != userId
    ensures IsSubsequence(r.db.messages, db.messages) && IsSubsequence(r.db.users, db.users)
    ensures |r.db.messages| == CountWhere(db.messages, (m: Message) => m.sender != userId && m.receiver != userId)
    ensures |r.db.users| == CountWhere(db.users, (u: User) => u.id != userId)
  {
    FilterIsSubsequence(db.messages, (m: Message) => m.sender != userId && m.receiver != userId);
    FilterIsSubsequence(db.users, (u: User) => u.id != userId);
    Answer(Db(Filter(db.users, (u: User) => u.id != userId),
              db.requests,
              Filter(db.messages, (m: Message) => m.sender != userId && m.receiver != userId)),
           Ok(OK, true))
  }

  /** Every message's two parties are stored users. */
  predicate MessagesResolve(db: Db)
  {
    forall m :: m in db.messages ==> FindUser(db.users, m.sender).Some? && FindUser(db.users, m.receiver).Some?
  }

  /** Deleting a user leaves no message pointing at a missing user, and the
      deleted user has nothing left in the store but friend requests. */
  lemma DeleteKeepsMessagesResolved(db: Db, userId: UserId)
    requires MessagesResolve(db)
    ensures MessagesResolve(DeleteUser(db, userId).db)
    ensures FindUser(DeleteUser(db, userId).db.users, userId).None?
  {
    var after := DeleteUser(db, userId).db;
    forall m | m in after.messages
      ensures FindUser(after.users, m.sender).Some? && FindUser(after.users, m.receiver).Some?
    {
      var s := FindUser(db.users, m.sender).value;
      var v := FindUser(db.users, m.receiver).value;
      assert s in after.users && v in after.users;
      FoundWhenPresent(after.users, s);
      FoundWhenPresent(after.users, v);
    }
  }

  lemma FoundWhenPresent(users: seq<User>, u: User)
    requires u in users
    ensures FindUser(users, u.id).Some?
  {
  }

  /** GET `/users/:userId/friends`: the counterparty of each accepted
      request. A request whose sender does not resolve makes the route
      fail with a 500; a receiver that does not resolve comes out as
      `null` (`None`). */
  function AdminFriends(users: seq<User>, rs: seq<FriendRequest>, userId: UserId): (r: Option<seq<Option<PublicUser>>>)
    ensures r.None? <==> exists i :: 0 <= i < |rs| && FindUser(users, rs[i].sender).None?
    ensures r.Some? ==> |r.value| == |rs|
    ensures r.Some? ==> forall i :: 0 <= i < |rs| ==>
              match r.value[i]
              case Some(p) => p.id == Counterparty(rs[i], userId)
                              && FindUser(users, p.id).Some? && p == Public(FindUser(users, p.id).value)
              case None => rs[i].sender == userId && FindUser(users, rs[i].receiver).None?
  {
    if |rs| == 0 then Some([])
    else
      var rest := AdminFriends(users, rs[1..], userId);
      assert forall i :: 0 <= i < |rs| - 1 ==> rs[1..][i] == rs[i + 1];
      if FindUser(users, rs[0].sender).None? || rest.None? then None
      else
        var entry := AdminEntry(users, rs[0], userId);
        var r := [entry] + rest.value;
        assert forall i :: 0 < i < |r| ==> r[i] == rest.value[i - 1];
        Some(r)
  }

  /** One request's entry, its sender resolved: the counterparty's record,
      or `None` when the caller sent it and the receiver did not resolve. */
  function AdminEntry(users: seq<User>, r: FriendRequest, userId: UserId): (o: Option<PublicUser>)
    requires FindUser(users, r.sender).Some?
    ensures match o
            case Some(p) => p.id == Counterparty(r, userId)
                            && FindUser(users, p.id).Some? && p == Public(FindUser(users, p.id).value)
            case None => r.sender == userId && FindUser(users, r.receiver).None?
  {
    var s := FindUser(users, r.sender).value;
    if s.id == userId then
      match FindUser(users, r.receiver)
      case None => None
      case Some(v) => Some(Public(v))
    else Some(Public(s))
  }

  function FriendsOfRoute(db: Db, userId: UserId): (r: Reply<seq<Option<PublicUser>>>)
    ensures r.Err? <==> exists x :: x in AcceptedWith(db.requests, userId) && FindUser(db.users, x.sender).None?
    ensures r.Err? ==> r == Err(SERVER_ERROR, "Server error")
    ensures r.Ok? ==> r.code == OK && |r.value| == |AcceptedWith(db.requests, userId)|
    ensures r.Ok? ==> AdminFriends(db.users, AcceptedWith(db.requests, userId), userId) == Some(r.value)
    ensures r.Ok? ==> var acc := AcceptedWith(db.requests, userId);
              forall i :: 0 <= i < |acc| ==>
                match r.value[i]
                case Some(p) => p.id == Counterparty(acc[i], userId)
                                && FindUser(db.users, p.id).Some? && p == Public(FindUser(db.users, p.id).value)
                case None => acc[i].sender == userId && FindUser(db.users, acc[i].receiver).None?
  {
    var acc := AcceptedWith(db.requests, userId);
    assert forall i :: 0 <= i < |acc| ==> acc[i] in acc;
    match AdminFriends(db.users, acc, userId)
    case None => Err(SERVER_ERROR, "Server error")
    case Some(fs) => Ok(OK, fs)
  }

  /** When every request's sender and receiver resolve, the route lists
      exactly the friends the socket layer notifies, in request order. */
  lemma AdminFriendsMatchFriendIds(db: Db, userId: UserId)
    requires forall x :: x in db.requests ==>
               FindUser(db.users, x.sender).Some? && FindUser(db.users, x.receiver).Some?
    ensures var r := FriendsOfRoute(db, userId);
            && r.Ok?
            && forall i :: 0 <= i < |r.value| ==>
                 r.value[i].Some? && r.value[i].value.id == FriendIds(db.requests, userId)[i]
  {
    var acc := AcceptedWith(db.requests, userId);
    assert forall i :: 0 <= i < |acc| ==> acc[i] in acc;
    var r := AdminFriends(db.users, acc, userId);
    assert r.Some?;
    forall i | 0 <= i < |acc| ensures r.value[i].Some? {
      assert acc[i] in db.requests;
    }
  }

  /** GET `/chats/:userId/:friendId`: both directions, oldest first, with
      no friendship check and no read marking. */
  function AdminChat(db: Db, userId: UserId, friendId: UserId): (r: Reply<seq<Message>>)
    ensures r.Ok? && r.code == OK
    ensures Sorted(r.value, false)
    ensures multiset(r.value) == multiset(Filter(db.messages, (m: Message) => Between(m, userId, friendId)))
    ensures forall m :: m in r.value <==> m in db.messages && Between(m, userId, friendId)
  {
    Ok(OK, Conversation(db.messages, userId, friendId))
  }

  /** For two friends the admin view and the participant's own view list
      the same messages in the same order; only the participant's fetch
      marks them read. */
  lemma AdminChatMatchesParticipantView(h: Presence.Hub, db: Db, me: UserId, friendId: UserId)
    requires AreFriends(db.requests, me, friendId)
    ensures AdminChat(db, me, friendId).value == GetConversation(h, db, me, friendId).reply.value
  {
  }

  datatype Stats = Stats(totalUsers: nat, onlineUsers: nat, totalMessages: nat)

  /** GET `/stats`. `onlineUsers` reads the stored `isOnline` flag, which
      no modelled handler writes; the live registry is not consulted. */
  function GetStats(db: Db): (r: Reply<Stats>)
    ensures r.Ok? && r.code == OK
    ensures r.value.totalUsers == CountWhere(db.users, (u: User) => !u.isAdmin)
    ensures r.value.onlineUsers == CountWhere(db.users, (u: User) => !u.isAdmin && u.isOnline)
    ensures r.value.onlineUsers <= r.value.totalUsers <= |db.users|
    ensures r.value.totalMessages == |db.messages|
    ensures r.value.totalUsers == |ListUsers(db).value|
  {
    CountWhereMonotone(db.users, (u: User) => !u.isAdmin && u.isOnline, (u: User) => !u.isAdmin);
    Ok(OK, Stats(CountWhere(db.users, (u: User) => !u.isAdmin),
                 CountWhere(db.users, (u: User) => !u.isAdmin && u.isOnline),
                 |db.messages|))
  }

  lemma {:induction false} CountWhereMonotone<T>(s: seq<T>, p: T -> bool, q: T -> bool)
    requires forall x :: p(x) ==> q(x)
    ensures CountWhere(s, p) <= CountWhere(s, q)
  {
    if |s| > 0 {
      CountWhereMonotone(s[..|s| - 1], p, q);
    }
  }
}
