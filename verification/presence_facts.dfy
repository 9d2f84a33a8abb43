/** Properties of the socket layer that span several handler steps. */
module PresenceFacts {
  import opened Common
  import opened Store
  import opened Presence

  /** The replace race: a user bound on `stale` authenticates again on `newer`;
      when `stale`'s disconnect is handled afterwards, the newer entry
      survives and no offline notice goes out. The bind itself closes
      nothing: `stale` keeps its connected flag until its own disconnect. */
  lemma StaleDisconnectKeepsNewerBinding(h: Hub, db: Db, stale: SocketId, newer: SocketId, u: UserId,
                                         token: string, fails1: bool, fails2: bool, now: nat)
    requires stale in h.sockets && newer in h.sockets && stale != newer
    requires h.sockets[stale].userId == Some(u)
    requires token != "" && FindUser(db.users, u).Some?
    ensures var s1 := Authenticate(h, db, newer, token, Some(u), fails1, now);
            && s1.hub.online[u] == newer
            && s1.hub.sockets[stale] == h.sockets[stale]
            && var s2 := Disconnect(s1.hub, db, stale, fails2, now);
               && s2.hub.online == s1.hub.online
               && s2.emits == []
  {
    var s1 := Authenticate(h, db, newer, token, Some(u), fails1, now);
    assert s1.hub.sockets[stale].userId == Some(u);
  }

  /** A socket that authenticates again as a different user keeps the stale
      user's entry pointing at it; its disconnect clears only the new
      user's entry, and the stale one lingers until a sweep removes it. */
  lemma ReauthenticationOrphansOldEntry(h: Hub, db: Db, sid: SocketId, a: UserId, b: UserId,
                                        token: string, now: nat)
    requires sid in h.sockets && h.sockets[sid].connected
    requires a in h.online && h.online[a] == sid && h.sockets[sid].userId == Some(a)
    requires a != b && token != "" && FindUser(db.users, b).Some?
    ensures var s1 := Authenticate(h, db, sid, token, Some(b), false, now);
            && s1.hub.online[a] == sid && s1.hub.online[b] == sid
            && var s2 := Disconnect(s1.hub, db, sid, false, now);
               && b !in s2.hub.online
               && a in s2.hub.online && s2.hub.online[a] == sid
               && IsUserOnline(s2.hub, a)
               && a !in Sweep(s2.hub).online
  {
    var s1 := Authenticate(h, db, sid, token, Some(b), false, now);
    assert s1.hub.sockets[sid].userId == Some(b);
    var s2 := Disconnect(s1.hub, db, sid, false, now);
    assert s2.hub.sockets[sid].connected == false;
  }

  /** After a sweep, registry membership and deliverability agree: every
      user reported online can be reached. */
  lemma SweepAlignsPresenceWithDelivery(h: Hub, u: UserId, e: Event)
    ensures IsUserOnline(Sweep(h), u) <==> EmitToUser(Sweep(h), u, e).delivered
  {
  }

  /** A second sweep finds nothing more to remove. */
  lemma SweepIdempotent(h: Hub)
    ensures Sweep(Sweep(h)) == Sweep(h)
  {
    var once := Sweep(h);
    var twice := Sweep(once);
    assert twice.online.Keys == once.online.Keys;
  }

  /** The sweep never evicts a connected entry, and it only ever evicts:
      it binds nothing new. */
  lemma SweepOnlyShrinks(h: Hub)
    ensures Sweep(h).online.Keys <= h.online.Keys
    ensures forall u :: u in h.online && Connected(h, h.online[u]) ==> u in Sweep(h).online
  {
  }

  // ------------------------------------------------------------ scenarios

  function Person(id: UserId, name: string): User
  {
    User(id, name, name, id, "secret", Location(0, 0), false, false, 0, 0)
  }

  function ScenarioDb(): Db
  {
    Db([Person("a", "alice"), Person("b", "bob")], [FriendRequest("r1", "a", "b", ACCEPTED)], [])
  }

  /** Alice and Bob are friends and Bob is connected on c2; Alice
      authenticates on c1. Bob gets exactly one online notice for Alice,
      Alice gets Bob's status as online, then the acknowledgement. */
  lemma AliceAuthenticatesWhileBobOnline(now: nat)
    ensures
      var h := Hub(map["b" := "c2"], map["c1" := Socket(true, None), "c2" := Socket(true, Some("b"))]);
      var s1 := Authenticate(h, ScenarioDb(), "c1", "token", Some("a"), false, now);
      && s1.hub == Hub(map["b" := "c2", "a" := "c1"], map["c1" := Socket(true, Some("a")), "c2" := Socket(true, Some("b"))])
      && s1.emits == [Emit("c2", UserStatus("a", true, now)),
                      Emit("c1", UserStatus("b", true, now)),
                      Emit("c1", Authenticated("a"))]
  {
    AliceBound(now);
    AliceGreeted(now);
  }

  /** The registry half of the scenario: Alice is bound on c1. */
  lemma AliceBound(now: nat)
    ensures
      var h := Hub(map["b" := "c2"], map["c1" := Socket(true, None), "c2" := Socket(true, Some("b"))]);
      Authenticate(h, ScenarioDb(), "c1", "token", Some("a"), false, now).hub
      == Hub(map["b" := "c2", "a" := "c1"], map["c1" := Socket(true, Some("a")), "c2" := Socket(true, Some("b"))])
  {
    var h := Hub(map["b" := "c2"], map["c1" := Socket(true, None), "c2" := Socket(true, Some("b"))]);
    ScenarioLookup();
    KnownUserBound(h, ScenarioDb(), "c1", "token", "a", now);
    ScenarioBind();
  }

  lemma ScenarioLookup()
    ensures FindUser(ScenarioDb().users, "a") == Some(Person("a", "alice"))
  {
  }

  lemma ScenarioBind()
    ensures Bind(Hub(map["b" := "c2"], map["c1" := Socket(true, None), "c2" := Socket(true, Some("b"))]), "a", "c1")
            == Hub(map["b" := "c2", "a" := "c1"], map["c1" := Socket(true, Some("a")), "c2" := Socket(true, Some("b"))])
  {
  }

  /** A known user's authentication binds the user to the socket. */
  lemma KnownUserBound(h: Hub, db: Db, sid: SocketId, token: string, u: UserId, now: nat)
    requires sid in h.sockets && token != "" && FindUser(db.users, u).Some?
    ensures Authenticate(h, db, sid, token, Some(u), false, now).hub == Bind(h, u, sid)
  {
  }

  /** The emit half of the scenario: the notice, the snapshot, the
      acknowledgement. */
  lemma AliceGreeted(now: nat)
    ensures
      var h := Hub(map["b" := "c2"], map["c1" := Socket(true, None), "c2" := Socket(true, Some("b"))]);
      Authenticate(h, ScenarioDb(), "c1", "token", Some("a"), false, now).emits
      == [Emit("c2", UserStatus("a", true, now)), Emit("c1", UserStatus("b", true, now)), Emit("c1", Authenticated("a"))]
  {
    var h := Hub(map["b" := "c2"], map["c1" := Socket(true, None), "c2" := Socket(true, Some("b"))]);
    var bound := Hub(map["b" := "c2", "a" := "c1"], map["c1" := Socket(true, Some("a")), "c2" := Socket(true, Some("b"))]);
    ScenarioLookup();
    ScenarioFriends();
    AliceBound(now);
    KnownUserEmits(h, ScenarioDb(), "c1", "token", "a", now, bound, ["b"]);
    ScenarioNotices(now);
    ThreeEmits(Emit("c2", UserStatus("a", true, now)), Emit("c1", UserStatus("b", true, now)),
               Emit("c1", Authenticated("a")));
  }

  lemma ThreeEmits(a: Emit, b: Emit, c: Emit)
    ensures [a] + [b] + [c] == [a, b, c]
  {
  }

  /** A known user's successful authentication emits the notices, the
      snapshot and the acknowledgement, for the hub it binds. */
  lemma KnownUserEmits(h: Hub, db: Db, sid: SocketId, token: string, u: UserId, now: nat,
                       bound: Hub, friends: seq<UserId>)
    requires sid in h.sockets && token != "" && FindUser(db.users, u).Some?
    requires Authenticate(h, db, sid, token, Some(u), false, now).hub == bound
    requires FriendIds(db.requests, u) == friends
    ensures Authenticate(h, db, sid, token, Some(u), false, now).emits
            == StatusNotices(bound, u, friends, true, now) + Snapshot(bound, sid, friends, now)
               + [Emit(sid, Authenticated(u))]
  {
  }

  lemma ScenarioFriends()
    ensures FriendIds(ScenarioDb().requests, "a") == ["b"]
  {
    var acc := AcceptedWith(ScenarioDb().requests, "a");
    assert acc == [FriendRequest("r1", "a", "b", ACCEPTED)] by {
      assert FriendRequest("r1", "a", "b", ACCEPTED) in acc;
      assert |acc| <= 1;
    }
  }

  lemma ScenarioNotices(now: nat)
    ensures var bound := Hub(map["b" := "c2", "a" := "c1"], map["c1" := Socket(true, Some("a")), "c2" := Socket(true, Some("b"))]);
            && StatusNotices(bound, "a", ["b"], true, now) == [Emit("c2", UserStatus("a", true, now))]
            && Snapshot(bound, "c1", ["b"], now) == [Emit("c1", UserStatus("b", true, now))]
  {
    var bound := Hub(map["b" := "c2", "a" := "c1"], map["c1" := Socket(true, Some("a")), "c2" := Socket(true, Some("b"))]);
    assert Route(bound, "b") == Some("c2");
    assert ["b"][1..] == [];
  }

  /** Continuing: Alice sends "hi" with temporary id t1. The store gains one
      message, Bob gets `new-message` and Alice gets `message-sent` with t1;
      no error is emitted. */
  lemma AliceSendsHi(now: nat)
    ensures
      var h := Hub(map["b" := "c2", "a" := "c1"], map["c1" := Socket(true, Some("a")), "c2" := Socket(true, Some("b"))]);
      var s2 := SendMessage(h, ScenarioDb(), "c1", "b", "hi", "t1", "m1", now, false);
      var m := Message("m1", "a", "b", "hi", false, now);
      && s2.db.messages == [m]
      && s2.emits == [Emit("c2", NewMessage(m)), Emit("c1", MessageSent(m, "t1"))]
  {
    var db := ScenarioDb();
    assert IsAcceptedBetween(db.requests[0], "a", "b");
    assert Text.Trim("hi") == "hi" by {
      assert Text.LeadingSpace("hi") == 0;
      assert "hi"[0..] == "hi";
      assert Text.TrailingSpace("hi") == 0;
    }
  }

  /** A user whose entry is stale (socket dropped, disconnect never
      handled) is gone after one sweep. */
  lemma SweepClearsStaleEntry(h: Hub, carol: UserId)
    requires carol in h.online && h.online[carol] in h.sockets && !h.sockets[h.online[carol]].connected
    ensures !IsUserOnline(Sweep(h), carol)
  {
  }
}
