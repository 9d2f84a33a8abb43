/** The three document collections (users, friend requests, messages) as
    in-memory sequences, and the queries several routes and handlers share. */
module Store {
  import opened Common

  type UserId = string

  /** Stored coordinates. The source keeps floating-point numbers; the model
      keeps integers and only asks whether they are present and non-zero. */
  datatype Location = Location(latitude: int, longitude: int)

  datatype User = User(
    id: UserId,
    fullName: string,
    codeName: string,
    mobile: string,
    password: string,
    location: Location,
    isAdmin: bool,
    isOnline: bool,
    lastSeen: nat,
    createdAt: nat)

  /** A user as the routes send it out, selected with `-password`. */
  datatype PublicUser = PublicUser(
    id: UserId,
    fullName: string,
    codeName: string,
    mobile: string,
    location: Location,
    isAdmin: bool,
    isOnline: bool,
    lastSeen: nat,
    createdAt: nat)

  function Public(u: User): (p: PublicUser)
    ensures p.id == u.id && p.codeName == u.codeName && p.isAdmin == u.isAdmin && p.isOnline == u.isOnline
  {
    PublicUser(u.id, u.fullName, u.codeName, u.mobile, u.location, u.isAdmin, u.isOnline, u.lastSeen, u.createdAt)
  }

  /** A friend request. Its status is whatever string was last written to
      it: "pending" on creation, then the value the receiver supplied. */
  datatype FriendRequest = FriendRequest(id: string, sender: UserId, receiver: UserId, status: string)

  const PENDING := "pending"
  const ACCEPTED := "accepted"

  datatype Message = Message(
    id: string,
    sender: UserId,
    receiver: UserId,
    content: string,
    isRead: bool,
    createdAt: nat)

  datatype Db = Db(users: seq<User>, requests: seq<FriendRequest>, messages: seq<Message>)

  /** What a route that emits nothing leaves behind: the new store and the
      HTTP reply. */
  datatype Answer<+T> = Answer(db: Db, reply: Reply<T>)

  /** `User.findById`: the first user with this id. */
  function FindUser(users: seq<User>, id: UserId): (r: Option<User>)
    ensures r.Some? ==> r.value in users && r.value.id == id
    ensures r.None? <==> forall i :: 0 <= i < |users| ==> users[i].id != id
  {
    if |users| == 0 then None
    else if users[0].id == id then Some(users[0])
    else FindUser(users[1..], id)
  }

  /** `r` is between `a` and `b`, in either direction. */
  predicate Joins(r: FriendRequest, a: UserId, b: UserId)
  {
    (r.sender == a && r.receiver == b) || (r.sender == b && r.receiver == a)
  }

  predicate Involves(r: FriendRequest, u: UserId)
  {
    r.sender == u || r.receiver == u
  }

  predicate IsAcceptedBetween(r: FriendRequest, a: UserId, b: UserId)
  {
    r.status == ACCEPTED && Joins(r, a, b)
  }

  /** The friendship gate of chat.js and of the socket `send-message`
      handler: an accepted request in either direction. */
  predicate AreFriends(requests: seq<FriendRequest>, a: UserId, b: UserId): (friends: bool)
    ensures friends <==> exists r :: r in requests && r.status == ACCEPTED && {r.sender, r.receiver} == {a, b}
  {
    PairsAsSets(requests, a, b);
    exists i :: 0 <= i < |requests| && IsAcceptedBetween(requests[i], a, b)
  }

  /** A request joins `a` and `b` exactly when its two parties, as a set,
      are `{a, b}`. */
  lemma PairsAsSets(requests: seq<FriendRequest>, a: UserId, b: UserId)
    ensures forall r :: r in requests ==> (Joins(r, a, b) <==> {r.sender, r.receiver} == {a, b})
  {
    forall r | r in requests ensures Joins(r, a, b) <==> {r.sender, r.receiver} == {a, b} {
      if {r.sender, r.receiver} == {a, b} {
        assert r.sender in {a, b} && r.receiver in {a, b};
        assert a in {r.sender, r.receiver} && b in {r.sender, r.receiver};
      }
    }
  }

  /** The friendship gate is symmetric. */
  lemma AreFriendsSymmetric(requests: seq<FriendRequest>, a: UserId, b: UserId)
    ensures AreFriends(requests, a, b) <==> AreFriends(requests, b, a)
  {
  }

  /** The other party of a request, relative to `u`: the receiver when `u`
      sent it, otherwise the sender. */
  function Counterparty(r: FriendRequest, u: UserId): (f: UserId)
    ensures Involves(r, u) && r.sender != r.receiver ==> f != u && Involves(r, f)
    ensures r.sender == u ==> f == r.receiver
    ensures r.sender != u ==> f == r.sender
  {
    if r.sender == u then r.receiver else r.sender
  }

  /** The accepted requests involving `u`, in store order. */
  function AcceptedWith(requests: seq<FriendRequest>, u: UserId): (r: seq<FriendRequest>)
    ensures forall x :: x in r <==> x in requests && x.status == ACCEPTED && Involves(x, u)
    ensures IsSubsequence(r, requests)
  {
    FilterIsSubsequence(requests, (x: FriendRequest) => x.status == ACCEPTED && Involves(x, u));
    Filter(requests, (x: FriendRequest) => x.status == ACCEPTED && Involves(x, u))
  }

  /** The ids of `u`'s friends, one per accepted request (duplicates kept). */
  function FriendIds(requests: seq<FriendRequest>, u: UserId): (ids: seq<UserId>)
    ensures |ids| == |AcceptedWith(requests, u)|
    ensures forall i :: 0 <= i < |ids| ==> ids[i] == Counterparty(AcceptedWith(requests, u)[i], u)
  {
    CounterpartyAll(AcceptedWith(requests, u), u)
  }

  function CounterpartyAll(rs: seq<FriendRequest>, u: UserId): (ids: seq<UserId>)
    ensures |ids| == |rs|
    ensures forall i :: 0 <= i < |rs| ==> ids[i] == Counterparty(rs[i], u)
  {
    if |rs| == 0 then [] else [Counterparty(rs[0], u)] + CounterpartyAll(rs[1..], u)
  }

  /** Every id `FriendIds` yields is a friend in the sense of the gate, and
      every friend in that sense is yielded. */
  lemma {:induction false} FriendIdsAreFriends(requests: seq<FriendRequest>, u: UserId, f: UserId)
    ensures f in FriendIds(requests, u) <==> AreFriends(requests, u, f)
  {
    if f in FriendIds(requests, u) {
      FriendIdIsFriend(requests, u, f);
    }
    if AreFriends(requests, u, f) {
      FriendIsFriendId(requests, u, f);
    }
  }

  lemma FriendIdIsFriend(requests: seq<FriendRequest>, u: UserId, f: UserId)
    requires f in FriendIds(requests, u)
    ensures AreFriends(requests, u, f)
  {
    var acc := AcceptedWith(requests, u);
    var ids := FriendIds(requests, u);
    var k :| 0 <= k < |ids| && ids[k] == f;
    var r := acc[k];
    assert r in acc;
    var i :| 0 <= i < |requests| && requests[i] == r;
    assert IsAcceptedBetween(requests[i], u, f);
  }

  lemma FriendIsFriendId(requests: seq<FriendRequest>, u: UserId, f: UserId)
    requires AreFriends(requests, u, f)
    ensures f in FriendIds(requests, u)
  {
    var acc := AcceptedWith(requests, u);
    var ids := FriendIds(requests, u);
    var i :| 0 <= i < |requests| && IsAcceptedBetween(requests[i], u, f);
    var r := requests[i];
    assert r in acc;
    var k :| 0 <= k < |acc| && acc[k] == r;
    assert ids[k] == Counterparty(r, u);
  }

  predicate Unread(m: Message, sender: UserId, receiver: UserId)
  {
    m.sender == sender && m.receiver == receiver && !m.isRead
  }

  /** `Message.updateMany({sender: friend, receiver: me, isRead: false},
      {isRead: true})`. */
  function MarkConversationRead(msgs: seq<Message>, friend: UserId, me: UserId): (r: seq<Message>)
    ensures |r| == |msgs|
    ensures forall i :: 0 <= i < |msgs| ==>
              r[i] == if Unread(msgs[i], friend, me) then msgs[i].(isRead := true) else msgs[i]
  {
    if |msgs| == 0 then []
    else
      var m := msgs[0];
      [if Unread(m, friend, me) then m.(isRead := true) else m] + MarkConversationRead(msgs[1..], friend, me)
  }

  /** After marking, nothing from `friend` to `me` is unread, and marking a
      second time changes nothing. */
  lemma MarkConversationReadClears(msgs: seq<Message>, friend: UserId, me: UserId)
    ensures forall m :: m in MarkConversationRead(msgs, friend, me) ==> !Unread(m, friend, me)
    ensures MarkConversationRead(MarkConversationRead(msgs, friend, me), friend, me)
            == MarkConversationRead(msgs, friend, me)
  {
  }

  /** The messages of one conversation: from `a` to `b` or from `b` to `a`. */
  predicate Between(m: Message, a: UserId, b: UserId)
  {
    (m.sender == a && m.receiver == b) || (m.sender == b && m.receiver == a)
  }
}
