/** The friend record the client keeps in its lists, and the `user-status`
    patch the chat page and the chat window both apply to it. */
module ClientModel {
  import opened Common
  import opened Store

  /** A friend as the client holds it. `lastSeen` is `None` when the value
      is missing (falsy). */
  datatype Friend = Friend(id: UserId, fullName: string, codeName: string, isOnline: bool, lastSeen: Option<nat>)

  /** `{ ...f, isOnline, lastSeen: lastSeen || f.lastSeen }`. */
  function PatchStatus(f: Friend, isOnline: bool, lastSeen: Option<nat>): (g: Friend)
    ensures g.id == f.id && g.fullName == f.fullName && g.codeName == f.codeName
    ensures g.isOnline == isOnline
    ensures lastSeen.Some? ==> g.lastSeen == lastSeen
    ensures lastSeen.None? ==> g.lastSeen == f.lastSeen
  {
    f.(isOnline := isOnline, lastSeen := if lastSeen.Some? then lastSeen else f.lastSeen)
  }

  /** Applying the same status twice is applying it once. */
  lemma PatchStatusIdempotent(f: Friend, isOnline: bool, lastSeen: Option<nat>)
    ensures PatchStatus(PatchStatus(f, isOnline, lastSeen), isOnline, lastSeen) == PatchStatus(f, isOnline, lastSeen)
  {
  }

  /** The `friends.map` of the status handler: entries with the event's id
      are patched, every other entry is left as it is. */
  function PatchFriends(fs: seq<Friend>, userId: UserId, isOnline: bool, lastSeen: Option<nat>): (r: seq<Friend>)
    ensures |r| == |fs|
    ensures forall i :: 0 <= i < |fs| ==> r[i].id == fs[i].id
    ensures forall i :: 0 <= i < |fs| && fs[i].id == userId ==> r[i] == PatchStatus(fs[i], isOnline, lastSeen)
    ensures forall i :: 0 <= i < |fs| && fs[i].id != userId ==> r[i] == fs[i]
  {
    if |fs| == 0 then []
    else [if fs[0].id == userId then PatchStatus(fs[0], isOnline, lastSeen) else fs[0]]
         + PatchFriends(fs[1..], userId, isOnline, lastSeen)
  }

  /** A repeated `user-status` event changes nothing further. */
  lemma {:induction false} PatchFriendsIdempotent(fs: seq<Friend>, userId: UserId, isOnline: bool, lastSeen: Option<nat>)
    ensures PatchFriends(PatchFriends(fs, userId, isOnline, lastSeen), userId, isOnline, lastSeen)
            == PatchFriends(fs, userId, isOnline, lastSeen)
  {
    var once := PatchFriends(fs, userId, isOnline, lastSeen);
    var twice := PatchFriends(once, userId, isOnline, lastSeen);
    forall i | 0 <= i < |fs| ensures twice[i] == once[i] {
      if fs[i].id == userId {
        PatchStatusIdempotent(fs[i], isOnline, lastSeen);
      }
    }
  }
}
