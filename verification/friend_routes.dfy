/** The `/api/friends` routes: sending a request, listing the pending ones,
    and answering one. The `friend-request` socket notifications go to
    rooms and are not part of this model. */
module FriendRoutes {
  import opened Common
  import opened Store

  const SELF_REQUEST := "Cannot send friend request to yourself"
  const ALREADY_EXISTS := "Friend request already exists"
  const REQUEST_NOT_FOUND := "Friend request not found"
  const NOT_RECEIVER := "Unauthorized"

  /** Some request joins `a` and `b`, in either direction and in any state. */
  predicate Related(requests: seq<FriendRequest>, a: UserId, b: UserId)
  {
    exists i :: 0 <= i < |requests| && Joins(requests[i], a, b)
  }

  /** POST `/request`. `newId` is the id the store gives the new request. */
  function CreateRequest(db: Db, me: UserId, receiverId: UserId, newId: string): (r: Answer<FriendRequest>)
    ensures receiverId == me ==> r == Answer(db, Err(BAD_REQUEST, SELF_REQUEST))
    ensures receiverId != me && Related(db.requests, me, receiverId) ==>
              r == Answer(db, Err(BAD_REQUEST, ALREADY_EXISTS))
    ensures receiverId != me && !Related(db.requests, me, receiverId) ==>
              && r.reply == Ok(CREATED, FriendRequest(newId, me, receiverId, PENDING))
              && r.db == db.(requests := db.requests + [r.reply.value])
  {
    if receiverId == me then Answer(db, Err(BAD_REQUEST, SELF_REQUEST))
    else if Related(db.requests, me, receiverId) then Answer(db, Err(BAD_REQUEST, ALREADY_EXISTS))
    else
      var fr := FriendRequest(newId, me, receiverId, PENDING);
      Answer(db.(requests := db.requests + [fr]), Ok(CREATED, fr))
  }

  /** GET `/requests`: the caller's incoming pending requests, in store
      order. */
  function PendingFor(db: Db, me: UserId): (r: Reply<seq<FriendRequest>>)
    ensures r.Ok? && r.code == OK
    ensures forall x :: x in r.value <==> x in db.requests && x.receiver == me && x.status == PENDING
    ensures IsSubsequence(r.value, db.requests)
    ensures |r.value| == CountWhere(db.requests, (x: FriendRequest) => x.receiver == me && x.status == PENDING)
  {
    FilterIsSubsequence(db.requests, (x: FriendRequest) => x.receiver == me && x.status == PENDING);
    Ok(OK, Filter(db.requests, (x: FriendRequest) => x.receiver == me && x.status == PENDING))
  }

  /** `FriendRequest.findById`: the position of the first request with
      this id. */
  function RequestIndex(requests: seq<FriendRequest>, id: string): (r: Option<nat>)
    ensures r.Some? ==> r.value < |requests| && requests[r.value].id == id
                        && forall j :: 0 <= j < r.value ==> requests[j].id != id
    ensures r.None? <==> forall j :: 0 <= j < |requests| ==> requests[j].id != id
  {
    if |requests| == 0 then None
    else if requests[|requests| - 1].id == id then
      match RequestIndex(requests[..|requests| - 1], id)
      case Some(i) => Some(i)
      case None => Some(|requests| - 1)
    else
      RequestIndex(requests[..|requests| - 1], id)
  }

  /** PUT `/request/:id`. Only the receiver may answer; the supplied status
      is written as given, whatever the current one is. */
  function Respond(db: Db, me: UserId, id: string, status: string): (r: Answer<FriendRequest>)
    ensures RequestIndex(db.requests, id).None? ==> r == Answer(db, Err(NOT_FOUND, REQUEST_NOT_FOUND))
    ensures RequestIndex(db.requests, id).Some? && db.requests[RequestIndex(db.requests, id).value].receiver != me ==>
              r == Answer(db, Err(FORBIDDEN, NOT_RECEIVER))
    ensures RequestIndex(db.requests, id).Some? && db.requests[RequestIndex(db.requests, id).value].receiver == me ==>
              var i := RequestIndex(db.requests, id).value;
              && r.reply == Ok(OK, db.requests[i].(status := status))
              && r.db == db.(requests := db.requests[i := r.reply.value])
  {
    match RequestIndex(db.requests, id)
    case None => Answer(db, Err(NOT_FOUND, REQUEST_NOT_FOUND))
    case Some(i) =>
      if db.requests[i].receiver != me then Answer(db, Err(FORBIDDEN, NOT_RECEIVER))
      else
        var fr := db.requests[i].(status := status);
        Answer(db.(requests := db.requests[i := fr]), Ok(OK, fr))
  }

  // ------------------------------------------------------------ invariants

  /** No one is in a request with themselves. */
  predicate NoSelfRequests(requests: seq<FriendRequest>)
  {
    forall i :: 0 <= i < |requests| ==> requests[i].sender != requests[i].receiver
  }

  /** At most one request per unordered pair of users. */
  predicate OnePerPair(requests: seq<FriendRequest>)
  {
    forall i, j :: 0 <= i < j < |requests| ==> !Joins(requests[j], requests[i].sender, requests[i].receiver)
  }

  /** Sending a request keeps both invariants. */
  lemma {:induction false} CreatePreservesInvariants(db: Db, me: UserId, receiverId: UserId, newId: string)
    requires NoSelfRequests(db.requests) && OnePerPair(db.requests)
    ensures NoSelfRequests(CreateRequest(db, me, receiverId, newId).db.requests)
    ensures OnePerPair(CreateRequest(db, me, receiverId, newId).db.requests)
  {
    var rs := CreateRequest(db, me, receiverId, newId).db.requests;
    if rs != db.requests {
      var n := |db.requests|;
      forall i, j | 0 <= i < j < |rs| ensures !Joins(rs[j], rs[i].sender, rs[i].receiver) {
        if j == n {
          assert rs[i] == db.requests[i];
          assert !Joins(db.requests[i], me, receiverId);
        } else {
          assert rs[i] == db.requests[i] && rs[j] == db.requests[j];
        }
      }
    }
  }

  /** Answering a request changes only its status, so both invariants
      survive. */
  lemma {:induction false} RespondPreservesInvariants(db: Db, me: UserId, id: string, status: string)
    requires NoSelfRequests(db.requests) && OnePerPair(db.requests)
    ensures NoSelfRequests(Respond(db, me, id, status).db.requests)
    ensures OnePerPair(Respond(db, me, id, status).db.requests)
  {
    var rs := Respond(db, me, id, status).db.requests;
    assert |rs| == |db.requests|;
    assert forall k :: 0 <= k < |rs| ==>
             rs[k].sender == db.requests[k].sender && rs[k].receiver == db.requests[k].receiver;
  }

  /** Any request between the pair blocks a new one, so a rejected request
      can never be followed by another between the same two users. */
  lemma RejectedBlocksRerequest(db: Db, me: UserId, other: UserId, id: string, newId: string)
    requires me != other
    requires RequestIndex(db.requests, id).Some?
    requires Joins(db.requests[RequestIndex(db.requests, id).value], me, other)
    requires db.requests[RequestIndex(db.requests, id).value].receiver == me
    ensures var after := Respond(db, me, id, "rejected").db;
            && CreateRequest(after, me, other, newId).reply == Err(BAD_REQUEST, ALREADY_EXISTS)
            && CreateRequest(after, other, me, newId).reply == Err(BAD_REQUEST, ALREADY_EXISTS)
  {
    var i := RequestIndex(db.requests, id).value;
    var after := Respond(db, me, id, "rejected").db;
    assert Joins(after.requests[i], me, other);
    assert Joins(after.requests[i], other, me);
  }

  /** Once the receiver accepts, the two users pass the friendship gate. */
  lemma AcceptMakesFriends(db: Db, me: UserId, id: string)
    requires RequestIndex(db.requests, id).Some?
    requires db.requests[RequestIndex(db.requests, id).value].receiver == me
    ensures var i := RequestIndex(db.requests, id).value;
            AreFriends(Respond(db, me, id, ACCEPTED).db.requests, me, db.requests[i].sender)
  {
    var i := RequestIndex(db.requests, id).value;
    var after := Respond(db, me, id, ACCEPTED).db;
    assert IsAcceptedBetween(after.requests[i], me, db.requests[i].sender);
  }
}
