/** The live-connection layer: the registry from user id to socket, the
    routing helpers built on it, and each socket handler as one atomic
    transition returning the new state and the events it emitted. */
module Presence {
  import opened Common
  import opened Text
  import opened Store

  type SocketId = string

  /** One socket: whether the transport still reports it connected, and the
      user it authenticated as, if any. */
  datatype Socket = Socket(connected: bool, userId: Option<UserId>)

  /** `online` is the registry (one socket per user id); `sockets` holds the
      per-socket state of every socket that ever connected. */
  datatype Hub = Hub(online: map<UserId, SocketId>, sockets: map<SocketId, Socket>)

  /** Outbound events, named after their wire names. */
  datatype Event =
    | AuthError(reason: string)
    | Authenticated(userId: UserId)
    | UserStatus(userId: UserId, isOnline: bool, lastSeen: nat)
    | NewMessage(message: Message)
    | MessageSent(message: Message, tempId: string)
    | MessageError(reason: string, tempId: string)
    | UserTyping(userId: UserId, isTyping: bool)
    | MessagesRead(readBy: UserId)

  /** `socket.emit(event)` on the socket `to`. */
  datatype Emit = Emit(to: SocketId, event: Event)

  /** The outcome of one handler: new registry, new store, emitted events in order. */
  datatype Step = Step(hub: Hub, db: Db, emits: seq<Emit>)

  /** Every registry entry names a known socket. */
  predicate Valid(h: Hub)
  {
    forall u :: u in h.online ==> h.online[u] in h.sockets
  }

  predicate Connected(h: Hub, sid: SocketId)
  {
    sid in h.sockets && h.sockets[sid].connected
  }

  // ---------------------------------------------------------------- registry

  /** Where an event for `u` is delivered: the registered socket, provided
      it is still connected. Every emit path goes through this test. */
  function Route(h: Hub, u: UserId): (r: Option<SocketId>)
    ensures r.Some? <==> u in h.online && Connected(h, h.online[u])
    ensures r.Some? ==> r.value == h.online[u]
  {
    if u in h.online && Connected(h, h.online[u]) then Some(h.online[u]) else None
  }

  /** `isUserOnline`: registry membership only; `connected` is not consulted. */
  function IsUserOnline(h: Hub, u: UserId): (r: bool)
    ensures r <==> u in h.online
  {
    u in h.online
  }

  datatype Delivery = Delivery(delivered: bool, emits: seq<Emit>)

  /** `emitToUser`: one emit and `true` when `u` has a connected entry,
      otherwise nothing and `false`. */
  function EmitToUser(h: Hub, u: UserId, e: Event): (r: Delivery)
    ensures r.delivered <==> u in h.online && Connected(h, h.online[u])
    ensures r.delivered ==> r.emits == [Emit(h.online[u], e)]
    ensures !r.delivered ==> r.emits == []
  {
    match Route(h, u)
    case Some(sid) => Delivery(true, [Emit(sid, e)])
    case None => Delivery(false, [])
  }

  /** The registry is membership-based and the emit paths are
      connection-based: a user whose registered socket has dropped is still
      reported online, yet nothing can be delivered to them. */
  lemma OnlineButUndeliverable(h: Hub, u: UserId, e: Event)
    requires u in h.online && h.online[u] in h.sockets && !h.sockets[h.online[u]].connected
    ensures IsUserOnline(h, u)
    ensures !EmitToUser(h, u, e).delivered && EmitToUser(h, u, e).emits == []
  {
  }

  /** `broadcastMessage`: `new-message` to the receiver, then to the sender,
      each only when present and connected. */
  function BroadcastMessage(h: Hub, m: Message): (out: seq<Emit>)
    ensures |out| == (if Route(h, m.receiver).Some? then 1 else 0) + (if Route(h, m.sender).Some? then 1 else 0)
    ensures forall e :: e in out ==> e.event == NewMessage(m)
    ensures forall e :: e in out ==> Some(e.to) == Route(h, m.receiver) || Some(e.to) == Route(h, m.sender)
    ensures Route(h, m.receiver).Some? ==> out[0] == Emit(h.online[m.receiver], NewMessage(m))
    ensures Route(h, m.sender).Some? ==> out[|out| - 1] == Emit(h.online[m.sender], NewMessage(m))
  {
    EmitToUser(h, m.receiver, NewMessage(m)).emits + EmitToUser(h, m.sender, NewMessage(m)).emits
  }

  /** Registry bind (`socket.userId = ...` then `onlineUsers.set`): last
      bind wins, and no socket is closed. */
  function Bind(h: Hub, u: UserId, sid: SocketId): (r: Hub)
    requires sid in h.sockets
    ensures r.online.Keys == h.online.Keys + {u}
    ensures r.online[u] == sid
    ensures forall v :: v in h.online && v != u ==> r.online[v] == h.online[v]
    ensures r.sockets.Keys == h.sockets.Keys
    ensures r.sockets[sid] == Socket(h.sockets[sid].connected, Some(u))
    ensures forall t :: t in h.sockets && t != sid ==> r.sockets[t] == h.sockets[t]
    ensures Valid(h) ==> Valid(r)
  {
    Hub(h.online[u := sid], h.sockets[sid := h.sockets[sid].(userId := Some(u))])
  }

  /** Remove `u`'s entry only if it still holds `sid`. */
  function UnbindIfCurrent(h: Hub, u: UserId, sid: SocketId): (r: Hub)
    ensures r.sockets == h.sockets
    ensures u in h.online && h.online[u] == sid ==> u !in r.online
    ensures !(u in h.online && h.online[u] == sid) ==> r.online == h.online
    ensures forall v :: v != u ==> (v in r.online <==> v in h.online)
    ensures forall v :: v in r.online ==> r.online[v] == h.online[v]
    ensures Valid(h) ==> Valid(r)
  {
    if u in h.online && h.online[u] == sid then h.(online := h.online - {u}) else h
  }

  /** A new transport connection: a connected socket with no user. */
  function Connect(h: Hub, sid: SocketId): (r: Hub)
    requires sid !in h.sockets
    ensures r.online == h.online
    ensures r.sockets == h.sockets[sid := Socket(true, None)]
    ensures Valid(h) ==> Valid(r)
  {
    h.(sockets := h.sockets[sid := Socket(true, None)])
  }

  // ----------------------------------------------------------- presence fan-out

  /** How many of `friends` route to socket `t` (a friend listed twice
      counts twice). */
  function RoutedTo(h: Hub, friends: seq<UserId>, t: SocketId): nat
  {
    if |friends| == 0 then 0
    else (if Route(h, friends[0]) == Some(t) then 1 else 0) + RoutedTo(h, friends[1..], t)
  }

  /** One `user-status{self, isOnline}` to each friend that has a connected
      entry, in friend order. */
  function StatusNotices(h: Hub, self: UserId, friends: seq<UserId>, isOnline: bool, now: nat): (out: seq<Emit>)
    ensures |out| <= |friends|
    ensures forall e :: e in out ==> e.event == UserStatus(self, isOnline, now) && Connected(h, e.to)
    ensures forall t :: multiset(out)[Emit(t, UserStatus(self, isOnline, now))] == RoutedTo(h, friends, t)
  {
    if |friends| == 0 then []
    else
      var first := match Route(h, friends[0])
                   case Some(t) => [Emit(t, UserStatus(self, isOnline, now))]
                   case None => [];
      first + StatusNotices(h, self, friends[1..], isOnline, now)
  }

  /** A friend with a connected entry is notified exactly as often as it is
      listed, so exactly once when listed once. */
  lemma {:induction false} NoticeReachesConnectedFriend(h: Hub, self: UserId, friends: seq<UserId>, isOnline: bool, now: nat, f: UserId)
    requires f in friends && Route(h, f).Some?
    ensures Emit(h.online[f], UserStatus(self, isOnline, now)) in StatusNotices(h, self, friends, isOnline, now)
  {
    RoutedToPositive(h, friends, f);
  }

  lemma {:induction false} RoutedToPositive(h: Hub, friends: seq<UserId>, f: UserId)
    requires f in friends && Route(h, f).Some?
    ensures RoutedTo(h, friends, h.online[f]) > 0
  {
    if friends[0] != f {
      RoutedToPositive(h, friends[1..], f);
    }
  }

  /** The presence snapshot sent to the newly bound socket: one
      `user-status` per friend, `isOnline` being registry membership. */
  function Snapshot(h: Hub, sid: SocketId, friends: seq<UserId>, now: nat): (out: seq<Emit>)
    ensures |out| == |friends|
    ensures forall i :: 0 <= i < |friends| ==>
              out[i] == Emit(sid, UserStatus(friends[i], IsUserOnline(h, friends[i]), now))
  {
    if |friends| == 0 then [] else
      [Emit(sid, UserStatus(friends[0], friends[0] in h.online, now))] + Snapshot(h, sid, friends[1..], now)
  }

  // ----------------------------------------------------------------- handlers

  const NO_TOKEN := "No token provided"
  const USER_NOT_FOUND := "User not found"
  const AUTH_FAILED := "Authentication failed"
  const NOT_AUTHENTICATED := "Not authenticated"
  const NOT_FRIENDS := "Not friends"
  const SEND_FAILED := "Failed to send"

  /** The `authenticate` handler. `token` is "" when absent; `decoded` is
      what the token verifier yields (`None` when it throws);
      `friendQueryFails` says the accepted-request query after the bind
      throws. */
  function Authenticate(h: Hub, db: Db, sid: SocketId, token: string, decoded: Option<UserId>,
                        friendQueryFails: bool, now: nat): (r: Step)
    requires sid in h.sockets
    ensures r.db == db
    ensures Valid(h) ==> Valid(r.hub)
    // rejections before the bind leave the registry alone
    ensures token == "" ==> r.hub == h && r.emits == [Emit(sid, AuthError(NO_TOKEN))]
    ensures token != "" && decoded.None? ==> r.hub == h && r.emits == [Emit(sid, AuthError(AUTH_FAILED))]
    ensures token != "" && decoded.Some? && FindUser(db.users, decoded.value).None? ==>
              r.hub == h && r.emits == [Emit(sid, AuthError(USER_NOT_FOUND))]
    // a found user is bound, last bind winning
    ensures token != "" && decoded.Some? && FindUser(db.users, decoded.value).Some? ==>
              r.hub == Bind(h, decoded.value, sid)
    // the friend query fails only after the bind: the user stays bound
    ensures token != "" && decoded.Some? && FindUser(db.users, decoded.value).Some? && friendQueryFails ==>
              r.emits == [Emit(sid, AuthError(AUTH_FAILED))]
    ensures token != "" && decoded.Some? && FindUser(db.users, decoded.value).Some? && !friendQueryFails ==>
              var u := decoded.value;
              var friends := FriendIds(db.requests, u);
              r.emits == StatusNotices(r.hub, u, friends, true, now)
                         + Snapshot(r.hub, sid, friends, now)
                         + [Emit(sid, Authenticated(u))]
  {
    if token == "" then Step(h, db, [Emit(sid, AuthError(NO_TOKEN))])
    else if decoded.None? then Step(h, db, [Emit(sid, AuthError(AUTH_FAILED))])
    else match FindUser(db.users, decoded.value)
      case None => Step(h, db, [Emit(sid, AuthError(USER_NOT_FOUND))])
      case Some(user) =>
        var u := user.id;
        var bound := Bind(h, u, sid);
        if friendQueryFails then Step(bound, db, [Emit(sid, AuthError(AUTH_FAILED))])
        else
          var friends := FriendIds(db.requests, u);
          Step(bound, db, StatusNotices(bound, u, friends, true, now)
                          + Snapshot(bound, sid, friends, now)
                          + [Emit(sid, Authenticated(u))])
  }

  /** Does this event answer the send carrying `tempId`? */
  predicate AnswersSend(e: Event, tempId: string)
  {
    (e.MessageSent? && e.tempId == tempId) || (e.MessageError? && e.tempId == tempId)
  }

  /** The `send-message` handler. `newId` and `now` are the id and timestamp
      the store gives the new message; `saveFails` says the save throws. */
  function SendMessage(h: Hub, db: Db, sid: SocketId, receiverId: UserId, content: string, tempId: string,
                       newId: string, now: nat, saveFails: bool): (r: Step)
    requires sid in h.sockets
    ensures r.hub == h
    ensures r.db.users == db.users && r.db.requests == db.requests
    // the sender always gets exactly one answer, last, carrying its tempId
    ensures |r.emits| > 0 && r.emits[|r.emits| - 1].to == sid && AnswersSend(r.emits[|r.emits| - 1].event, tempId)
    ensures forall i :: 0 <= i < |r.emits| - 1 ==> !r.emits[i].event.MessageSent? && !r.emits[i].event.MessageError?
    ensures h.sockets[sid].userId.None? ==>
              r.db == db && r.emits == [Emit(sid, MessageError(NOT_AUTHENTICATED, tempId))]
    ensures h.sockets[sid].userId.Some? && !AreFriends(db.requests, h.sockets[sid].userId.value, receiverId) ==>
              r.db == db && r.emits == [Emit(sid, MessageError(NOT_FRIENDS, tempId))]
    ensures h.sockets[sid].userId.Some? && AreFriends(db.requests, h.sockets[sid].userId.value, receiverId) && saveFails ==>
              r.db == db && r.emits == [Emit(sid, MessageError(SEND_FAILED, tempId))]
    ensures h.sockets[sid].userId.Some? && AreFriends(db.requests, h.sockets[sid].userId.value, receiverId) && !saveFails ==>
              var m := Message(newId, h.sockets[sid].userId.value, receiverId, Trim(content), false, now);
              && r.db.messages == db.messages + [m]
              && r.emits == EmitToUser(h, receiverId, NewMessage(m)).emits + [Emit(sid, MessageSent(m, tempId))]
  {
    match h.sockets[sid].userId
    case None => Step(h, db, [Emit(sid, MessageError(NOT_AUTHENTICATED, tempId))])
    case Some(u) =>
      if !AreFriends(db.requests, u, receiverId) then Step(h, db, [Emit(sid, MessageError(NOT_FRIENDS, tempId))])
      else if saveFails then Step(h, db, [Emit(sid, MessageError(SEND_FAILED, tempId))])
      else
        var m := Message(newId, u, receiverId, Trim(content), false, now);
        Step(h, db.(messages := db.messages + [m]),
             EmitToUser(h, receiverId, NewMessage(m)).emits + [Emit(sid, MessageSent(m, tempId))])
  }

  /** The `typing` handler: pure routing, no friendship check. */
  function Typing(h: Hub, db: Db, sid: SocketId, receiverId: UserId, isTyping: bool): (r: Step)
    requires sid in h.sockets
    ensures r.hub == h && r.db == db
    ensures h.sockets[sid].userId.None? ==> r.emits == []
    ensures h.sockets[sid].userId.Some? ==>
              r.emits == EmitToUser(h, receiverId, UserTyping(h.sockets[sid].userId.value, isTyping)).emits
  {
    match h.sockets[sid].userId
    case None => Step(h, db, [])
    case Some(u) => Step(h, db, EmitToUser(h, receiverId, UserTyping(u, isTyping)).emits)
  }

  /** The `mark-read` handler: the same store update and notification as
      the REST mark-read route. */
  function MarkRead(h: Hub, db: Db, sid: SocketId, friendId: UserId): (r: Step)
    requires sid in h.sockets
    ensures r.hub == h
    ensures h.sockets[sid].userId.None? ==> r.db == db && r.emits == []
    ensures h.sockets[sid].userId.Some? ==>
              var u := h.sockets[sid].userId.value;
              && r.db == db.(messages := MarkConversationRead(db.messages, friendId, u))
              && r.emits == EmitToUser(h, friendId, MessagesRead(u)).emits
  {
    match h.sockets[sid].userId
    case None => Step(h, db, [])
    case Some(u) =>
      Step(h, db.(messages := MarkConversationRead(db.messages, friendId, u)),
           EmitToUser(h, friendId, MessagesRead(u)).emits)
  }

  /** The `disconnect` handler. The transport has already marked the socket
      disconnected. The bound user's entry is removed only if it still holds
      this socket, and only then are friends told the user went offline. */
  function Disconnect(h: Hub, db: Db, sid: SocketId, friendQueryFails: bool, now: nat): (r: Step)
    requires sid in h.sockets
    ensures r.db == db
    ensures Valid(h) ==> Valid(r.hub)
    ensures r.hub.sockets == h.sockets[sid := h.sockets[sid].(connected := false)]
    ensures h.sockets[sid].userId.None? ==> r.hub.online == h.online && r.emits == []
    ensures h.sockets[sid].userId.Some? ==>
              var u := h.sockets[sid].userId.value;
              && r.hub.online == UnbindIfCurrent(h, u, sid).online
              && (u in h.online && h.online[u] == sid && !friendQueryFails ==>
                    r.emits == StatusNotices(r.hub, u, FriendIds(db.requests, u), false, now))
              && (!(u in h.online && h.online[u] == sid) || friendQueryFails ==> r.emits == [])
    ensures forall e :: e in r.emits ==> e.event.UserStatus? && !e.event.isOnline && e.to != sid
  {
    var dropped := h.(sockets := h.sockets[sid := h.sockets[sid].(connected := false)]);
    match h.sockets[sid].userId
    case None => Step(dropped, db, [])
    case Some(u) =>
      if u in h.online && h.online[u] == sid then
        var unbound := UnbindIfCurrent(dropped, u, sid);
        if friendQueryFails then Step(unbound, db, [])
        else Step(unbound, db, StatusNotices(unbound, u, FriendIds(db.requests, u), false, now))
      else Step(dropped, db, [])
  }

  /** One pass of the 30-second sweeper: drop every entry whose socket is
      not connected, keep the rest unchanged. It emits nothing. */
  function Sweep(h: Hub): (r: Hub)
    ensures r.sockets == h.sockets
    ensures forall u :: u in r.online <==> u in h.online && Connected(h, h.online[u])
    ensures forall u :: u in r.online ==> r.online[u] == h.online[u]
    ensures Valid(h) ==> Valid(r)
  {
    h.(online := map u | u in h.online && Connected(h, h.online[u]) :: h.online[u])
  }
}
