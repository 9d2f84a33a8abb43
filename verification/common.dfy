/** Shared result shapes used by every route and handler of the model. */
module Common {

  datatype Option<+T> = None | Some(value: T)

  /** What an HTTP route answers: a success status with a payload, or an
      error status with the JSON `message` string the route sends. */
  datatype Reply<+T> = Ok(code: nat, value: T) | Err(code: nat, message: string)

  const OK: nat := 200
  const CREATED: nat := 201
  const BAD_REQUEST: nat := 400
  const UNAUTHORIZED: nat := 401
  const FORBIDDEN: nat := 403
  const NOT_FOUND: nat := 404
  const SERVER_ERROR: nat := 500

  /** Number of elements of `s` satisfying `p`. */
  function CountWhere<T>(s: seq<T>, p: T -> bool): (n: nat)
    ensures n <= |s|
    ensures n == 0 <==> forall i :: 0 <= i < |s| ==> !p(s[i])
  {
    if |s| == 0 then 0 else CountWhere(s[..|s| - 1], p) + (if p(s[|s| - 1]) then 1 else 0)
  }

  lemma CountWhereAppend<T>(a: seq<T>, b: seq<T>, p: T -> bool)
    ensures CountWhere(a + b, p) == CountWhere(a, p) + CountWhere(b, p)
    decreases |b|
  {
    if |b| == 0 {
      assert a + b == a;
    } else {
      assert (a + b)[..|a + b| - 1] == a + b[..|b| - 1];
      CountWhereAppend(a, b[..|b| - 1], p);
    }
  }

  /** The elements of `s` satisfying `p`, in their original order. */
  function Filter<T(!new)>(s: seq<T>, p: T -> bool): (r: seq<T>)
    ensures |r| <= |s|
    ensures forall x :: x in r <==> x in s && p(x)
    ensures |r| == CountWhere(s, p)
  {
    if |s| == 0 then [] else Filter(s[..|s| - 1], p) + (if p(s[|s| - 1]) then [s[|s| - 1]] else [])
  }

  /** A filter every element passes keeps the sequence as it is. */
  lemma {:induction false} FilterKeepsAll<T(!new)>(s: seq<T>, p: T -> bool)
    requires forall i :: 0 <= i < |s| ==> p(s[i])
    ensures Filter(s, p) == s
  {
    if |s| > 0 {
      var init, last := s[..|s| - 1], s[|s| - 1];
      assert s == init + [last];
      FilterKeepsAll(init, p);
      assert p(last);
    }
  }

  /** Filtering a sequence with a head: the head, if it passes, then the
      filtered tail. */
  lemma {:induction false} FilterCons<T(!new)>(x: T, t: seq<T>, p: T -> bool)
    ensures Filter([x] + t, p) == (if p(x) then [x] else []) + Filter(t, p)
    decreases |t|
  {
    if |t| > 0 {
      FilterCons(x, t[..|t| - 1], p);
      FilterConsStep(x, t, p);
    } else {
      assert [x] + t == [x] && [x][..0] == [];
    }
  }

  /** The inductive step of `FilterCons`: the last element is filtered the
      same way on both sides. */
  lemma FilterConsStep<T(!new)>(x: T, t: seq<T>, p: T -> bool)
    requires |t| > 0
    requires Filter([x] + t[..|t| - 1], p) == (if p(x) then [x] else []) + Filter(t[..|t| - 1], p)
    ensures Filter([x] + t, p) == (if p(x) then [x] else []) + Filter(t, p)
  {
    var init, last := t[..|t| - 1], t[|t| - 1];
    SplitLast(x, t);
    FilterSnoc([x] + init, last, p);
    FilterSnoc(init, last, p);
    Regroup(Filter([x] + t, p), Filter([x] + init, p), if p(x) then [x] else [], Filter(init, p),
            if p(last) then [last] else [], Filter(t, p));
  }

  lemma SplitLast<T>(x: T, t: seq<T>)
    requires |t| > 0
    ensures [x] + t == ([x] + t[..|t| - 1]) + [t[|t| - 1]]
    ensures t == t[..|t| - 1] + [t[|t| - 1]]
  {
  }

  /** Filtering a sequence with a last element appended. */
  lemma FilterSnoc<T(!new)>(u: seq<T>, y: T, p: T -> bool)
    ensures Filter(u + [y], p) == Filter(u, p) + (if p(y) then [y] else [])
  {
    var s := u + [y];
    assert s[..|s| - 1] == u;
  }

  /** `(h + m) + t` regrouped as `h + (m + t)`, through names for the parts. */
  lemma Regroup<T>(whole: seq<T>, front: seq<T>, h: seq<T>, m: seq<T>, t: seq<T>, back: seq<T>)
    requires whole == front + t && front == h + m && back == m + t
    ensures whole == h + back
  {
    AppendAssoc(h, m, t);
  }

  lemma AppendAssoc<T>(a: seq<T>, b: seq<T>, c: seq<T>)
    ensures a + (b + c) == (a + b) + c
  {
  }

  /** `sub` is `s` with some elements dropped and the rest kept in order. */
  predicate IsSubsequence<T(==)>(sub: seq<T>, s: seq<T>)
    decreases |s|
  {
    if |sub| == 0 then true
    else if |s| == 0 then false
    else if sub[|sub| - 1] == s[|s| - 1] then IsSubsequence(sub[..|sub| - 1], s[..|s| - 1])
    else IsSubsequence(sub, s[..|s| - 1])
  }

  lemma {:induction false} FilterIsSubsequence<T(!new)>(s: seq<T>, p: T -> bool)
    ensures IsSubsequence(Filter(s, p), s)
    decreases |s|
  {
    if |s| == 0 {
    } else {
      var init := s[..|s| - 1];
      FilterIsSubsequence(init, p);
      if p(s[|s| - 1]) {
        var r := Filter(s, p);
        assert r[..|r| - 1] == Filter(init, p);
      } else {
        assert Filter(s, p) == Filter(init, p);
        SubsequenceOfPrefix(Filter(init, p), init, s[|s| - 1]);
      }
    }
  }

  /** A subsequence of a prefix is a subsequence of the whole. */
  lemma {:induction false} SubsequenceOfPrefix<T>(sub: seq<T>, s: seq<T>, x: T)
    requires IsSubsequence(sub, s)
    ensures IsSubsequence(sub, s + [x])
    decreases |s|, 1
  {
    var t := s + [x];
    assert t[..|t| - 1] == s;
    if |sub| > 0 && sub[|sub| - 1] == x {
      SubsequenceDropLast(sub, s);
    }
  }

  /** Dropping the last element of a subsequence keeps it a subsequence. */
  lemma {:induction false} SubsequenceDropLast<T>(sub: seq<T>, s: seq<T>)
    requires |sub| > 0
    requires IsSubsequence(sub, s)
    ensures IsSubsequence(sub[..|sub| - 1], s)
    decreases |s|, 0
  {
    if |s| == 0 {
    } else if sub[|sub| - 1] == s[|s| - 1] {
      if |sub| > 1 {
        SubsequenceDropLast(sub[..|sub| - 1], s[..|s| - 1]);
        assert sub[..|sub| - 1][..|sub| - 2] == sub[..|sub| - 2];
        SubsequenceOfPrefix(sub[..|sub| - 1], s[..|s| - 1], s[|s| - 1]);
        assert s[..|s| - 1] + [s[|s| - 1]] == s;
      } else {
        assert IsSubsequence(sub[..0], s);
      }
    } else {
      SubsequenceDropLast(sub, s[..|s| - 1]);
      SubsequenceOfPrefix(sub[..|sub| - 1], s[..|s| - 1], s[|s| - 1]);
      assert s[..|s| - 1] + [s[|s| - 1]] == s;
    }
  }

  /** A subsequence whose elements all pass `p` has at most as many
      elements as `s` has passing ones. */
  lemma {:induction false} SubsequenceCountBound<T>(sub: seq<T>, s: seq<T>, p: T -> bool)
    requires IsSubsequence(sub, s)
    requires forall i :: 0 <= i < |sub| ==> p(sub[i])
    ensures |sub| <= CountWhere(s, p)
    decreases |s|
  {
    if |sub| > 0 {
      var init := s[..|s| - 1];
      if sub[|sub| - 1] == s[|s| - 1] {
        SubsequenceCountBound(sub[..|sub| - 1], init, p);
      } else {
        SubsequenceCountBound(sub, init, p);
      }
    }
  }

  /** The filter is the only subsequence that keeps exactly the passing
      elements and as many of them as there are: membership, order and
      count together pin the result. */
  lemma {:induction false} FilterPinned<T(!new)>(r: seq<T>, s: seq<T>, p: T -> bool)
    requires IsSubsequence(r, s)
    requires forall i :: 0 <= i < |r| ==> p(r[i])
    requires |r| == CountWhere(s, p)
    ensures r == Filter(s, p)
    decreases |s|
  {
    if |s| > 0 {
      var init := s[..|s| - 1];
      var last := s[|s| - 1];
      if |r| > 0 && r[|r| - 1] == last {
        PinnedLastTaken(r, s, p);
      } else {
        assert IsSubsequence(r, init);
        SubsequenceCountBound(r, init, p);
        FilterPinned(r, init, p);
      }
    }
  }

  /** The step of `FilterPinned` where `r` ends with the last element of
      `s`. */
  lemma {:induction false} PinnedLastTaken<T(!new)>(r: seq<T>, s: seq<T>, p: T -> bool)
    requires |s| > 0 && |r| > 0 && r[|r| - 1] == s[|s| - 1]
    requires IsSubsequence(r, s)
    requires forall i :: 0 <= i < |r| ==> p(r[i])
    requires |r| == CountWhere(s, p)
    ensures r == Filter(s, p)
    decreases |s|, 0
  {
    var init := s[..|s| - 1];
    var front := r[..|r| - 1];
    assert p(r[|r| - 1]);
    assert IsSubsequence(front, init);
    FilterPinned(front, init, p);
    SplitLast(r[0], r);
    SplitLast(s[0], s);
    FilterSnoc(init, s[|s| - 1], p);
  }

  /** The first `n` elements of `s`, or all of them if there are fewer. */
  function Take<T>(s: seq<T>, n: nat): (r: seq<T>)
    ensures |r| == if |s| <= n then |s| else n
    ensures r == s[..|r|]
  {
    if |s| <= n then s else s[..n]
  }
}
