/** String helpers with JavaScript's meaning: `trim`, `toLowerCase`
    (restricted to ASCII letters) and `includes`. */
module Text {

  /** ECMAScript WhiteSpace and LineTerminator code points, the set that
      `String.prototype.trim` strips. */
  predicate IsWhitespace(c: char)
  {
    || c == ' ' || c == '\t' || c == '\n' || c == '\r'
    || c == '\U{000B}' || c == '\U{000C}' || c == '\U{00A0}' || c == '\U{FEFF}'
    || c == '\U{1680}' || ('\U{2000}' <= c <= '\U{200A}')
    || c == '\U{2028}' || c == '\U{2029}' || c == '\U{202F}' || c == '\U{205F}'
    || c == '\U{3000}'
  }

  predicate AllWhitespace(s: string)
  {
    forall i :: 0 <= i < |s| ==> IsWhitespace(s[i])
  }

  /** Number of leading whitespace characters. */
  function LeadingSpace(s: string): (n: nat)
    ensures n <= |s|
    ensures AllWhitespace(s[..n])
    ensures n < |s| ==> !IsWhitespace(s[n])
  {
    if |s| == 0 || !IsWhitespace(s[0]) then 0
    else
      var k := LeadingSpace(s[1..]);
      assert s[1..][..k] == s[1..k + 1];
      1 + k
  }

  /** Number of trailing whitespace characters. */
  function TrailingSpace(s: string): (n: nat)
    ensures n <= |s|
    ensures AllWhitespace(s[|s| - n..])
    ensures n < |s| ==> !IsWhitespace(s[|s| - n - 1])
  {
    if |s| == 0 || !IsWhitespace(s[|s| - 1]) then 0
    else
      var k := TrailingSpace(s[..|s| - 1]);
      1 + k
  }

  /** `s.trim()`: `s` without its leading and trailing whitespace. */
  function Trim(s: string): (r: string)
    ensures |r| <= |s|
    ensures exists i :: (0 <= i <= |s| - |r| && r == s[i..i + |r|]
                         && AllWhitespace(s[..i]) && AllWhitespace(s[i + |r|..]))
    ensures |r| > 0 ==> !IsWhitespace(r[0]) && !IsWhitespace(r[|r| - 1])
  {
    var a := LeadingSpace(s);
    var rest := s[a..];
    var b := TrailingSpace(rest);
    var r := rest[..|rest| - b];
    assert r == s[a..a + |r|];
    assert s[a + |r|..] == rest[|rest| - b..];
    r
  }

  /** A string trims to nothing exactly when it is all whitespace; this is
      the test behind every `!content.trim()` guard. */
  lemma {:induction false} TrimEmptyIffAllWhitespace(s: string)
    ensures Trim(s) == [] <==> AllWhitespace(s)
  {
    var a := LeadingSpace(s);
    var rest := s[a..];
    var b := TrailingSpace(rest);
    if b == |rest| {
      assert a == |s|;
      assert s[..a] == s;
    } else {
      assert !IsWhitespace(rest[|rest| - b - 1]);
    }
  }

  /** A string with no whitespace at either end is its own trim. */
  lemma TrimUnpadded(s: string)
    requires |s| > 0 && !IsWhitespace(s[0]) && !IsWhitespace(s[|s| - 1])
    ensures Trim(s) == s
  {
    assert s[0..] == s;
    assert s[..|s|] == s;
  }

  /** A leading whitespace character does not survive trimming. */
  lemma TrimDropsLeadingSpace(s: string)
    requires |s| > 0 && IsWhitespace(s[0])
    ensures Trim(s) == Trim(s[1..])
  {
    var k := LeadingSpace(s[1..]);
    assert s[1 + k..] == s[1..][k..];
  }

  /** Trimming twice is trimming once. */
  lemma TrimIdempotent(s: string)
    ensures Trim(Trim(s)) == Trim(s)
  {
    var r := Trim(s);
    if |r| > 0 {
      assert LeadingSpace(r) == 0;
      assert TrailingSpace(r) == 0;
      assert r[0..] == r;
    }
  }

  /** `toLowerCase` on one character, ASCII letters only. */
  function LowerChar(c: char): (d: char)
    ensures 'A' <= c <= 'Z' ==> d as int == c as int + 32
    ensures !('A' <= c <= 'Z') ==> d == c
  {
    if 'A' <= c <= 'Z' then (c as int + 32) as char else c
  }

  /** `s.toLowerCase()` over ASCII. */
  function Lower(s: string): (r: string)
    ensures |r| == |s|
    ensures forall i :: 0 <= i < |s| ==> r[i] == LowerChar(s[i])
  {
    if |s| == 0 then [] else [LowerChar(s[0])] + Lower(s[1..])
  }

  predicate IsLower(s: string)
  {
    forall i :: 0 <= i < |s| ==> !('A' <= s[i] <= 'Z')
  }

  lemma LowerIsLower(s: string)
    ensures IsLower(Lower(s))
  {
  }

  /** Lowercasing is idempotent, so a stored lowercase code name matches
      the lowercased form of every case variant of it. */
  lemma LowerIdempotent(s: string)
    ensures Lower(Lower(s)) == Lower(s)
  {
  }

  lemma LowerOfLower(s: string)
    requires IsLower(s)
    ensures Lower(s) == s
  {
  }

  /** Lowercasing leaves whitespace alone, so trimming and lowercasing
      commute: the order of the code-name setters does not matter. */
  lemma TrimLowerCommute(s: string)
    ensures Trim(Lower(s)) == Lower(Trim(s))
  {
    var t := Lower(s);
    LowerSameSpaces(s);
    SameSpacesLeading(s, t);
    var a := LeadingSpace(s);
    var rest := s[a..];
    LowerSlice(s, a, |s|);
    assert t[a..] == Lower(rest);
    LowerSameSpaces(rest);
    SameSpacesTrailing(rest, Lower(rest));
    var b := TrailingSpace(rest);
    LowerSlice(rest, 0, |rest| - b);
    assert rest[0..|rest| - b] == rest[..|rest| - b];
    assert Lower(rest)[0..|rest| - b] == Lower(rest)[..|rest| - b];
  }

  /** `a` and `b` have whitespace at exactly the same positions. */
  predicate SameSpaces(a: string, b: string)
  {
    |a| == |b| && forall i :: 0 <= i < |a| ==> (IsWhitespace(a[i]) <==> IsWhitespace(b[i]))
  }

  lemma LowerSameSpaces(s: string)
    ensures SameSpaces(s, Lower(s))
  {
    var t := Lower(s);
    forall k | 0 <= k < |s| ensures IsWhitespace(s[k]) <==> IsWhitespace(t[k]) {
      if 'A' <= s[k] <= 'Z' {
        assert 'a' <= t[k] <= 'z';
      }
    }
  }

  /** Lowercasing a slice is slicing the lowercased string. */
  lemma LowerSlice(s: string, i: nat, j: nat)
    requires i <= j <= |s|
    ensures Lower(s)[i..j] == Lower(s[i..j])
  {
    var t := Lower(s);
    var u := Lower(s[i..j]);
    forall k | 0 <= k < j - i ensures t[i..j][k] == u[k] {
      assert t[i..j][k] == t[i + k];
      assert s[i..j][k] == s[i + k];
    }
  }

  lemma {:induction false} SameSpacesLeading(a: string, b: string)
    requires SameSpaces(a, b)
    ensures LeadingSpace(a) == LeadingSpace(b)
    decreases |a|
  {
    if |a| > 0 && IsWhitespace(a[0]) {
      SameSpacesLeading(a[1..], b[1..]);
    }
  }

  lemma {:induction false} SameSpacesTrailing(a: string, b: string)
    requires SameSpaces(a, b)
    ensures TrailingSpace(a) == TrailingSpace(b)
    decreases |a|
  {
    if |a| > 0 && IsWhitespace(a[|a| - 1]) {
      SameSpacesTrailing(a[..|a| - 1], b[..|b| - 1]);
    }
  }

  /** `sub` occurs in `s` at position `i`. */
  predicate OccursAt(s: string, sub: string, i: nat)
  {
    i + |sub| <= |s| && s[i..i + |sub|] == sub
  }

  /** `s.includes(sub)`: a left-to-right scan for an occurrence. */
  function Includes(s: string, sub: string): (r: bool)
    ensures r <==> exists i: nat :: OccursAt(s, sub, i)
    decreases |s|
  {
    if |sub| > |s| then false
    else if s[..|sub|] == sub then
      assert OccursAt(s, sub, 0);
      true
    else
      ShiftOccurrence(s, sub);
      Includes(s[1..], sub)
  }

  /** Without a match at position 0, the occurrences of `sub` in `s` are
      those in `s[1..]` moved one place right. */
  lemma ShiftOccurrence(s: string, sub: string)
    requires |sub| <= |s| && s[..|sub|] != sub
    ensures (exists i: nat :: OccursAt(s, sub, i)) <==> (exists j: nat :: OccursAt(s[1..], sub, j))
  {
    if exists i: nat :: OccursAt(s, sub, i) {
      var i: nat :| OccursAt(s, sub, i);
      assert i != 0;
      OccurrenceLeft(s, sub, i);
    }
    if exists j: nat :: OccursAt(s[1..], sub, j) {
      var j: nat :| OccursAt(s[1..], sub, j);
      OccurrenceRight(s, sub, j);
    }
  }

  /** An occurrence past position 0 is one place further left in `s[1..]`. */
  lemma OccurrenceLeft(s: string, sub: string, i: nat)
    requires i > 0 && OccursAt(s, sub, i)
    ensures OccursAt(s[1..], sub, i - 1)
  {
    assert s[1..][i - 1..i - 1 + |sub|] == s[i..i + |sub|];
  }

  /** An occurrence in `s[1..]` is one place further right in `s`. */
  lemma OccurrenceRight(s: string, sub: string, j: nat)
    requires |s| > 0 && OccursAt(s[1..], sub, j)
    ensures OccursAt(s, sub, j + 1)
  {
    assert s[1..][j..j + |sub|] == s[j + 1..j + 1 + |sub|];
  }

  /** Every string includes the empty string. */
  lemma IncludesEmpty(s: string)
    ensures Includes(s, "")
  {
    assert OccursAt(s, "", 0);
  }
}
