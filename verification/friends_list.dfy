/** The friends sidebar: the search box filter, the header count and the
    unread badge. */
module FriendsList {
  import opened Common
  import opened Text
  import opened Store
  import opened ClientModel

  /** A friend stays visible when its full name or code name contains the
      query, ignoring case. */
  predicate Visible(f: Friend, q: string)
  {
    Includes(Lower(f.fullName), Lower(q)) || Includes(Lower(f.codeName), Lower(q))
  }

  /** `filteredFriends`. */
  function FilterFriends(friends: seq<Friend>, q: string): (r: seq<Friend>)
    ensures forall f :: f in r <==> f in friends && Visible(f, q)
    ensures IsSubsequence(r, friends)
    ensures |r| == CountWhere(friends, (f: Friend) => Visible(f, q))
  {
    FilterIsSubsequence(friends, (f: Friend) => Visible(f, q));
    Filter(friends, (f: Friend) => Visible(f, q))
  }

  /** An empty search box hides nobody. */
  lemma EmptyQueryKeepsAll(friends: seq<Friend>)
    ensures FilterFriends(friends, "") == friends
  {
    forall i | 0 <= i < |friends| ensures Visible(friends[i], "") {
      IncludesEmpty(Lower(friends[i].fullName));
    }
    FilterKeepsAll(friends, (f: Friend) => Visible(f, ""));
  }

  /** The number in the header: "Found (n)" while searching, "Friends (n)"
      otherwise. Either way it is the length of the list shown. */
  function HeaderCount(friends: seq<Friend>, q: string): (n: nat)
    ensures n == |FilterFriends(friends, q)|
    ensures q == "" ==> n == |friends|
  {
    EmptyQueryKeepsAll(friends);
    if q != "" then |FilterFriends(friends, q)| else |friends|
  }

  /** The badge text for a count from 1 to 9: its single digit. */
  function Digit(n: nat): (s: string)
    requires 1 <= n <= 9
    ensures |s| == 1 && '1' <= s[0] <= '9'
  {
    [('0' as int + n) as char]
  }

  /** The unread badge: none for a zero or missing count, "9+" above nine,
      the digit otherwise. */
  function Badge(counts: map<UserId, nat>, id: UserId): (r: Option<string>)
    ensures r.Some? <==> id in counts && counts[id] > 0
    ensures r.Some? ==> 1 <= |r.value| <= 2
    ensures r.Some? ==> (r.value == "9+" <==> counts[id] > 9)
    ensures r.Some? && counts[id] <= 9 ==> (r.value[0] as int) - ('0' as int) == counts[id]
  {
    if id in counts && counts[id] > 0 then
      if counts[id] > 9 then Some("9+") else Some(Digit(counts[id]))
    else None
  }
}
