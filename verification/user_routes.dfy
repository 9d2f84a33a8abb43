/** The `/api/users` routes: code-name search with each hit's friendship
    status, and the friends list with live presence. */
module UserRoutes {
  import opened Common
  import opened Text
  import opened Store
  import opened Presence
  import opened FriendRoutes

  const CODENAME_REQUIRED := "CodeName is required"
  const SEARCH_LIMIT: nat := 10

  /** The `friendshipStatus` strings "friends", "sent", "received" and
      "none". */
  datatype Friendship = Friends | Sent | Received | Unrelated

  /** How one request reads from `me`'s side. */
  function Classify(fr: FriendRequest, me: UserId): Friendship
  {
    if fr.status == ACCEPTED then Friends
    else if fr.status == PENDING then (if fr.sender == me then Sent else Received)
    else Unrelated
  }

  /** The position of the first request in `rs` that involves `u`. */
  function FirstInvolving(rs: seq<FriendRequest>, u: UserId): (r: Option<nat>)
    ensures r.Some? ==> r.value < |rs| && Involves(rs[r.value], u)
                        && forall j :: 0 <= j < r.value ==> !Involves(rs[j], u)
    ensures r.None? <==> forall j :: 0 <= j < |rs| ==> !Involves(rs[j], u)
  {
    if |rs| == 0 then None
    else if Involves(rs[0], u) then Some(0)
    else match FirstInvolving(rs[1..], u)
      case None => None
      case Some(i) => Some(i + 1)
  }

  /** The status attached to `other` in `me`'s search results: taken from
      the first of `me`'s requests that also involves `other`. */
  function Status(requests: seq<FriendRequest>, me: UserId, other: UserId): (s: Friendship)
    ensures s != Unrelated ==>
              exists k :: 0 <= k < |requests| && Involves(requests[k], me) && Involves(requests[k], other)
                          && Classify(requests[k], me) == s
    ensures (forall k :: 0 <= k < |requests| ==> !Involves(requests[k], me) || !Involves(requests[k], other)) ==>
              s == Unrelated
  {
    var mine := Filter(requests, (x: FriendRequest) => Involves(x, me));
    match FirstInvolving(mine, other)
    case None => Unrelated
    case Some(i) =>
      assert mine[i] in mine;
      var k :| 0 <= k < |requests| && requests[k] == mine[i];
      Classify(mine[i], me)
  }

  /** With at most one request per pair, the status is that request's
      classification... */
  lemma StatusOfPair(requests: seq<FriendRequest>, me: UserId, other: UserId, k: nat)
    requires OnePerPair(requests) && me != other
    requires k < |requests| && Joins(requests[k], me, other)
    ensures Status(requests, me, other) == Classify(requests[k], me)
  {
    var mine := Filter(requests, (x: FriendRequest) => Involves(x, me));
    assert requests[k] in mine;
    var found := FirstInvolving(mine, other);
    var fr := mine[found.value];
    assert fr in requests && Joins(fr, me, other);
    var k' :| 0 <= k' < |requests| && requests[k'] == fr;
    PairUnique(requests, me, other, k, k');
  }

  /** ...and with no request between the two it is "none". */
  lemma StatusUnrelated(requests: seq<FriendRequest>, me: UserId, other: UserId)
    requires me != other && !Related(requests, me, other)
    ensures Status(requests, me, other) == Unrelated
  {
    var mine := Filter(requests, (x: FriendRequest) => Involves(x, me));
    forall j | 0 <= j < |mine| ensures !Involves(mine[j], other) {
      assert mine[j] in mine;
      var k :| 0 <= k < |requests| && requests[k] == mine[j];
      assert !Joins(requests[k], me, other);
    }
  }

  /** Two requests between the same pair are one and the same. */
  lemma PairUnique(requests: seq<FriendRequest>, a: UserId, b: UserId, j: nat, k: nat)
    requires OnePerPair(requests)
    requires j < |requests| && Joins(requests[j], a, b)
    requires k < |requests| && Joins(requests[k], a, b)
    ensures j == k
  {
  }

  /** Under the one-request-per-pair invariant each status says exactly
      what the requests between the pair say. */
  lemma {:induction false} StatusMeaning(requests: seq<FriendRequest>, me: UserId, other: UserId)
    requires OnePerPair(requests) && me != other
    ensures Status(requests, me, other) == Friends <==> AreFriends(requests, me, other)
    ensures Status(requests, me, other) == Sent <==>
              exists k :: 0 <= k < |requests| && requests[k] == requests[k].(sender := me, receiver := other, status := PENDING)
    ensures Status(requests, me, other) == Received <==>
              exists k :: 0 <= k < |requests| && requests[k] == requests[k].(sender := other, receiver := me, status := PENDING)
  {
    if k :| 0 <= k < |requests| && Joins(requests[k], me, other) {
      StatusOfPair(requests, me, other, k);
      forall j | 0 <= j < |requests| && Joins(requests[j], me, other) ensures j == k {
        PairUnique(requests, me, other, j, k);
      }
    } else {
      StatusUnrelated(requests, me, other);
    }
  }

  /** A search hit: the user without password, with its status. */
  datatype Found = Found(user: PublicUser, friendshipStatus: Friendship)

  /** The search filter: not the caller, and the code name contains the
      query, ignoring case. */
  predicate Matches(u: User, me: UserId, q: string)
  {
    u.id != me && Includes(Lower(u.codeName), Lower(q))
  }

  function Annotate(users: seq<User>, requests: seq<FriendRequest>, me: UserId): (r: seq<Found>)
    ensures |r| == |users|
    ensures forall i :: 0 <= i < |users| ==>
              r[i] == Found(Public(users[i]), Status(requests, me, users[i].id))
  {
    if |users| == 0 then [] else [Found(Public(users[0]), Status(requests, me, users[0].id))] + Annotate(users[1..], requests, me)
  }

  /** GET `/search?codeName=q`: `q` is "" when absent. */
  function Search(db: Db, me: UserId, q: string): (r: Reply<seq<Found>>)
    ensures q == "" ==> r == Err(BAD_REQUEST, CODENAME_REQUIRED)
    ensures q != "" ==>
              && r.Ok? && r.code == OK
              && |r.value| == (if CountWhere(db.users, (u: User) => Matches(u, me, q)) < SEARCH_LIMIT
                               then CountWhere(db.users, (u: User) => Matches(u, me, q)) else SEARCH_LIMIT)
              && forall i :: 0 <= i < |r.value| ==>
                   && r.value[i].user.id != me
                   && (exists u :: u in db.users && Matches(u, me, q) && r.value[i].user == Public(u))
                   && r.value[i].friendshipStatus == Status(db.requests, me, r.value[i].user.id)
    ensures q != "" ==>
              forall i :: 0 <= i < |r.value| ==>
                i < |Filter(db.users, (u: User) => Matches(u, me, q))|
                && r.value[i].user == Public(Filter(db.users, (u: User) => Matches(u, me, q))[i])
  {
    if q == "" then Err(BAD_REQUEST, CODENAME_REQUIRED)
    else
      var hits := Filter(db.users, (u: User) => Matches(u, me, q));
      var kept := Take(hits, SEARCH_LIMIT);
      var r := Annotate(kept, db.requests, me);
      assert forall i :: 0 <= i < |kept| ==> kept[i] == hits[i] && hits[i] in hits;
      Ok(OK, r)
  }

  /** Fewer than ten hits come back in full. */
  lemma SearchReturnsAllBelowLimit(db: Db, me: UserId, q: string, u: User)
    requires q != "" && u in db.users && Matches(u, me, q)
    requires CountWhere(db.users, (x: User) => Matches(x, me, q)) <= SEARCH_LIMIT
    ensures exists i :: 0 <= i < |Search(db, me, q).value| && Search(db, me, q).value[i].user == Public(u)
  {
    var hits := Filter(db.users, (x: User) => Matches(x, me, q));
    assert u in hits;
    var k :| 0 <= k < |hits| && hits[k] == u;
    assert Search(db, me, q).value[k].user == Public(u);
  }

  // ------------------------------------------------------------ friends list

  /** Both parties of the request resolve to stored users (`populate`
      found them). */
  predicate Resolved(users: seq<User>, r: FriendRequest)
  {
    FindUser(users, r.sender).Some? && FindUser(users, r.receiver).Some?
  }

  /** What the `map` callback makes of one request: nothing when a party
      did not resolve, otherwise the counterparty's record with `isOnline`
      replaced by registry membership. */
  function EntryFor(h: Hub, users: seq<User>, r: FriendRequest, me: UserId): (o: Option<PublicUser>)
    ensures o.Some? <==> Resolved(users, r)
    ensures o.Some? ==> && o.value.id == Counterparty(r, me)
                        && o.value.isOnline == IsUserOnline(h, o.value.id)
                        && FindUser(users, o.value.id).Some?
                        && o.value == Public(FindUser(users, o.value.id).value).(isOnline := IsUserOnline(h, o.value.id))
  {
    var s := FindUser(users, r.sender);
    var v := FindUser(users, r.receiver);
    if s.Some? && v.Some? then
      var f := if s.value.id == me then v.value else s.value;
      assert FindUser(users, f.id) == Some(f);
      Some(Public(f).(isOnline := IsUserOnline(h, f.id)))
    else
      None
  }

  /** One entry per request whose parties resolve: the counterparty, with
      `isOnline` replaced by registry membership. */
  function FriendEntries(h: Hub, users: seq<User>, rs: seq<FriendRequest>, me: UserId): (r: seq<PublicUser>)
    ensures |r| <= |rs|
    ensures |rs| > 0 && !Resolved(users, rs[0]) ==> |r| < |rs|
    ensures forall e :: e in r ==> e.isOnline == IsUserOnline(h, e.id)
    ensures forall e :: e in r ==> exists i :: 0 <= i < |rs| && e.id == Counterparty(rs[i], me)
    ensures forall e :: e in r ==> FindUser(users, e.id).Some?
                                   && e == Public(FindUser(users, e.id).value).(isOnline := IsUserOnline(h, e.id))
  {
    if |rs| == 0 then []
    else
      var rest := FriendEntries(h, users, rs[1..], me);
      assert forall i :: 0 <= i < |rs| - 1 ==> rs[1..][i] == rs[i + 1];
      match EntryFor(h, users, rs[0], me)
      case None => rest
      case Some(e) =>
        assert forall x :: x in [e] + rest ==> x == e || x in rest;
        [e] + rest
  }

  /** Nothing is dropped exactly when every request resolves. */
  lemma {:induction false} FriendEntriesComplete(h: Hub, users: seq<User>, rs: seq<FriendRequest>, me: UserId)
    ensures |FriendEntries(h, users, rs, me)| == |rs| <==> forall i :: 0 <= i < |rs| ==> Resolved(users, rs[i])
  {
    if |rs| > 0 {
      var tail := rs[1..];
      FriendEntriesComplete(h, users, tail, me);
      var rest := FriendEntries(h, users, tail, me);
      if Resolved(users, rs[0]) {
        assert |FriendEntries(h, users, rs, me)| == |rest| + 1;
        AllResolvedSplit(users, rs);
      } else {
        assert |FriendEntries(h, users, rs, me)| < |rs|;
      }
    }
  }

  /** The entries follow the requests whose parties resolve, in request
      order, one counterparty each. */
  lemma {:induction false} FriendEntriesKeepOrder(h: Hub, users: seq<User>, rs: seq<FriendRequest>, me: UserId)
    ensures IdsOf(FriendEntries(h, users, rs, me))
            == CounterpartyAll(ResolvedOnly(users, rs), me)
  {
    if |rs| > 0 {
      var tail := rs[1..];
      ResolvedOnlyCons(users, rs);
      FriendEntriesKeepOrder(h, users, tail, me);
      if Resolved(users, rs[0]) {
        ResolvedHeadListed(h, users, rs, me);
        CounterpartyCons(rs[0], ResolvedOnly(users, tail), me);
      } else {
        UnresolvedHeadSkipped(h, users, rs, me);
      }
    }
  }

  /** The requests whose parties both resolve, in request order. */
  function ResolvedOnly(users: seq<User>, rs: seq<FriendRequest>): seq<FriendRequest>
  {
    Filter(rs, (x: FriendRequest) => Resolved(users, x))
  }

  lemma ResolvedOnlyCons(users: seq<User>, rs: seq<FriendRequest>)
    requires |rs| > 0
    ensures ResolvedOnly(users, rs)
            == (if Resolved(users, rs[0]) then [rs[0]] else []) + ResolvedOnly(users, rs[1..])
  {
    assert rs == [rs[0]] + rs[1..];
    FilterCons(rs[0], rs[1..], (x: FriendRequest) => Resolved(users, x));
  }

  /** A resolving first request puts its counterparty first. */
  lemma ResolvedHeadListed(h: Hub, users: seq<User>, rs: seq<FriendRequest>, me: UserId)
    requires |rs| > 0 && Resolved(users, rs[0])
    ensures IdsOf(FriendEntries(h, users, rs, me))
            == [Counterparty(rs[0], me)] + IdsOf(FriendEntries(h, users, rs[1..], me))
  {
    var r := FriendEntries(h, users, rs, me);
    assert r[1..] == FriendEntries(h, users, rs[1..], me);
    assert IdsOf(r) == [r[0].id] + IdsOf(r[1..]);
  }

  /** A first request that does not resolve contributes nothing. */
  lemma UnresolvedHeadSkipped(h: Hub, users: seq<User>, rs: seq<FriendRequest>, me: UserId)
    requires |rs| > 0 && !Resolved(users, rs[0])
    ensures FriendEntries(h, users, rs, me) == FriendEntries(h, users, rs[1..], me)
  {
  }

  lemma CounterpartyCons(x: FriendRequest, t: seq<FriendRequest>, me: UserId)
    ensures CounterpartyAll([x] + t, me) == [Counterparty(x, me)] + CounterpartyAll(t, me)
  {
    assert ([x] + t)[1..] == t;
  }

  lemma AllResolvedSplit(users: seq<User>, rs: seq<FriendRequest>)
    requires |rs| > 0 && Resolved(users, rs[0])
    ensures (forall i :: 0 <= i < |rs| ==> Resolved(users, rs[i]))
            <==> (forall i :: 0 <= i < |rs| - 1 ==> Resolved(users, rs[1..][i]))
  {
    assert forall i :: 0 <= i < |rs| - 1 ==> rs[1..][i] == rs[i + 1];
    if forall i :: 0 <= i < |rs| - 1 ==> Resolved(users, rs[1..][i]) {
      forall i | 0 <= i < |rs| ensures Resolved(users, rs[i]) {
        if i > 0 { assert rs[i] == rs[1..][i - 1]; }
      }
    }
  }

  function IdsOf(ps: seq<PublicUser>): (ids: seq<UserId>)
    ensures |ids| == |ps|
    ensures forall i :: 0 <= i < |ps| ==> ids[i] == ps[i].id
  {
    if |ps| == 0 then [] else [ps[0].id] + IdsOf(ps[1..])
  }

  /** GET `/friends`. */
  function FriendsRoute(h: Hub, db: Db, me: UserId): (r: Reply<seq<PublicUser>>)
    ensures r.Ok? && r.code == OK
    ensures forall e :: e in r.value ==> AreFriends(db.requests, me, e.id) && e.isOnline == IsUserOnline(h, e.id)
    ensures forall e :: e in r.value ==> FindUser(db.users, e.id).Some?
                                         && e == Public(FindUser(db.users, e.id).value).(isOnline := IsUserOnline(h, e.id))
    ensures IdsOf(r.value)
            == CounterpartyAll(ResolvedOnly(db.users, AcceptedWith(db.requests, me)), me)
  {
    var acc := AcceptedWith(db.requests, me);
    var r := FriendEntries(h, db.users, acc, me);
    FriendEntriesKeepOrder(h, db.users, acc, me);
    EntriesAreFriends(h, db, me);
    Ok(OK, r)
  }

  /** Every listed counterparty passes the friendship gate. */
  lemma EntriesAreFriends(h: Hub, db: Db, me: UserId)
    ensures forall e :: e in FriendEntries(h, db.users, AcceptedWith(db.requests, me), me)
                        ==> AreFriends(db.requests, me, e.id)
  {
    var acc := AcceptedWith(db.requests, me);
    forall e | e in FriendEntries(h, db.users, acc, me) ensures AreFriends(db.requests, me, e.id) {
      var i :| 0 <= i < |acc| && e.id == Counterparty(acc[i], me);
      CounterpartyIsFriend(db.requests, me, i);
    }
  }

  /** The counterparty of an accepted request passes the friendship gate. */
  lemma CounterpartyIsFriend(requests: seq<FriendRequest>, me: UserId, i: nat)
    requires i < |AcceptedWith(requests, me)|
    ensures AreFriends(requests, me, Counterparty(AcceptedWith(requests, me)[i], me))
  {
    var ids := FriendIds(requests, me);
    assert ids[i] in ids;
    FriendIdIsFriend(requests, me, ids[i]);
  }

  /** When every accepted request resolves, the list names exactly the
      friends the socket layer notifies, one per request, in request order. */
  lemma {:induction false} FriendEntriesMatchFriendIds(h: Hub, users: seq<User>, rs: seq<FriendRequest>, me: UserId)
    requires forall i :: 0 <= i < |rs| ==> Resolved(users, rs[i])
    ensures IdsOf(FriendEntries(h, users, rs, me)) == CounterpartyAll(rs, me)
  {
    if |rs| > 0 {
      assert forall i :: 0 <= i < |rs| - 1 ==> rs[1..][i] == rs[i + 1];
      FriendEntriesMatchFriendIds(h, users, rs[1..], me);
      var r := FriendEntries(h, users, rs, me);
      assert IdsOf(r) == [r[0].id] + IdsOf(r[1..]);
    }
  }

  lemma FriendsRouteMatchesSocketFriends(h: Hub, db: Db, me: UserId)
    requires forall r :: r in db.requests ==> Resolved(db.users, r)
    ensures IdsOf(FriendsRoute(h, db, me).value) == FriendIds(db.requests, me)
  {
    var acc := AcceptedWith(db.requests, me);
    assert forall i :: 0 <= i < |acc| ==> acc[i] in acc;
    FriendEntriesMatchFriendIds(h, db.users, acc, me);
  }
}
