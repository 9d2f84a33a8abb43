/** `.sort({ createdAt: 1 })` and `.sort({ createdAt: -1 })` over messages,
    as an insertion sort on sequences. Ties keep store order. */
module Ordering {
  import opened Store

  /** `a` may come before `b`: oldest first, or newest first. */
  predicate Before(a: Message, b: Message, newestFirst: bool)
  {
    if newestFirst then a.createdAt >= b.createdAt else a.createdAt <= b.createdAt
  }

  predicate Sorted(s: seq<Message>, newestFirst: bool)
  {
    forall i, j :: 0 <= i < j < |s| ==> Before(s[i], s[j], newestFirst)
  }

  function Insert(m: Message, s: seq<Message>, newestFirst: bool): (r: seq<Message>)
    requires Sorted(s, newestFirst)
    ensures Sorted(r, newestFirst)
    ensures multiset(r) == multiset(s) + multiset{m}
    ensures forall x :: x in r ==> x == m || x in s
  {
    if |s| == 0 then [m]
    else if Before(m, s[0], newestFirst) then [m] + s
    else
      var t := Insert(m, s[1..], newestFirst);
      assert s == [s[0]] + s[1..];
      forall j | 0 <= j < |t| ensures Before(s[0], t[j], newestFirst) {
        assert t[j] in t;
      }
      PrependSorted(s[0], t, newestFirst);
      [s[0]] + t
  }

  lemma PrependSorted(x: Message, t: seq<Message>, newestFirst: bool)
    requires Sorted(t, newestFirst)
    requires forall j :: 0 <= j < |t| ==> Before(x, t[j], newestFirst)
    ensures Sorted([x] + t, newestFirst)
  {
    var r := [x] + t;
    forall i, j | 0 <= i < j < |r| ensures Before(r[i], r[j], newestFirst) {
      if i == 0 { assert r[j] == t[j - 1]; } else { assert r[i] == t[i - 1] && r[j] == t[j - 1]; }
    }
  }

  /** The messages of `s` rearranged by `createdAt`. */
  function SortBy(s: seq<Message>, newestFirst: bool): (r: seq<Message>)
    ensures Sorted(r, newestFirst)
    ensures multiset(r) == multiset(s)
    ensures |r| == |s|
  {
    if |s| == 0 then []
    else
      assert s == [s[0]] + s[1..];
      Insert(s[0], SortBy(s[1..], newestFirst), newestFirst)
  }
}
