/** The user schema: field setters, required fields, the password length
    bound, the defaults, and the plain-equality password check. */
module UserModel {
  import opened Common
  import opened Text
  import opened Store

  const MIN_PASSWORD_LENGTH: nat := 6

  /** The fields handed to `new User({...})`, before setters run. A
      coordinate the caller left out is `None`. */
  datatype Draft = Draft(
    fullName: string,
    codeName: string,
    mobile: string,
    password: string,
    latitude: Option<int>,
    longitude: Option<int>)

  /** `codeName` is stored trimmed and lowercased. */
  function NormalizeCodeName(s: string): (r: string)
    ensures IsLower(r)
    ensures r == Lower(Trim(s))
  {
    TrimLowerCommute(s);
    LowerIsLower(Trim(s));
    Trim(Lower(s))
  }

  /** JavaScript's `length`: the number of UTF-16 code units, two for a
      character above U+FFFF (a surrogate pair), one for any other. */
  function Utf16Length(s: string): (n: nat)
    ensures |s| <= n <= 2 * |s|
    ensures n == |s| <==> forall i :: 0 <= i < |s| ==> s[i] as int <= 0xFFFF
  {
    if |s| == 0 then 0
    else Utf16Length(s[..|s| - 1]) + (if s[|s| - 1] as int > 0xFFFF then 2 else 1)
  }

  /** Appending one character adds its code units. */
  lemma Utf16Snoc(s: string, c: char)
    ensures Utf16Length(s + [c]) == Utf16Length(s) + (if c as int > 0xFFFF then 2 else 1)
  {
    assert (s + [c])[..|s|] == s;
  }

  /** What the schema admits once setters have run: required strings are
      non-empty, the password is at least six UTF-16 code units long (the
      unit `minlength` counts) and both coordinates are given. */
  predicate Admissible(d: Draft)
  {
    && Trim(d.fullName) != []
    && NormalizeCodeName(d.codeName) != []
    && d.mobile != []
    && Utf16Length(d.password) >= MIN_PASSWORD_LENGTH
    && d.latitude.Some? && d.longitude.Some?
  }

  /** `new User(draft)` followed by validation: `None` when validation
      fails, otherwise the record with setters applied and defaults filled
      in (`isAdmin` and `isOnline` false, both dates `now`). */
  function Build(d: Draft, id: UserId, now: nat): (r: Option<User>)
    ensures r.Some? <==> Admissible(d)
    ensures r.Some? ==> && r.value.id == id
                        && r.value.fullName == Trim(d.fullName)
                        && r.value.codeName == Lower(Trim(d.codeName))
                        && IsLower(r.value.codeName)
                        && r.value.mobile == d.mobile
                        && r.value.password == d.password
                        && Utf16Length(r.value.password) >= MIN_PASSWORD_LENGTH
                        && !r.value.isAdmin && !r.value.isOnline
                        && r.value.lastSeen == now && r.value.createdAt == now
  {
    if !Admissible(d) then None
    else
      Some(User(id, Trim(d.fullName), NormalizeCodeName(d.codeName), d.mobile, d.password,
                Location(d.latitude.value, d.longitude.value), false, false, now, now))
  }

  /** A password of three characters outside the Basic Multilingual Plane
      (three emoji, say) is only three characters long, yet six code units,
      so it passes the length bound. */
  lemma AstralPasswordAdmissible(fullName: string, codeName: string, mobile: string, password: string, lat: int, lon: int)
    requires Trim(fullName) != [] && NormalizeCodeName(codeName) != [] && mobile != []
    requires |password| == 3 && forall i :: 0 <= i < 3 ==> password[i] as int > 0xFFFF
    ensures |password| < MIN_PASSWORD_LENGTH
    ensures Admissible(Draft(fullName, codeName, mobile, password, Some(lat), Some(lon)))
  {
    AstralTripleLength(password);
  }

  /** Three characters above U+FFFF are six code units. */
  lemma AstralTripleLength(p: string)
    requires |p| == 3 && forall i :: 0 <= i < 3 ==> p[i] as int > 0xFFFF
    ensures Utf16Length(p) == 6
  {
    Utf16Snoc(p[..2], p[2]);
    Utf16Snoc(p[..1], p[1]);
    Utf16Snoc([], p[0]);
    assert [] + [p[0]] == p[..1];
    assert p[..1] + [p[1]] == p[..2];
    assert p[..2] + [p[2]] == p;
  }

  /** `comparePassword`: strict equality with the stored password; an
      absent candidate never matches. */
  function ComparePassword(u: User, candidate: Option<string>): (ok: bool)
    ensures ok <==> candidate == Some(u.password)
  {
    match candidate
    case None => false
    case Some(c) => c == u.password
  }

  /** The two unique indexes of the collection. */
  predicate UniqueCodeNames(users: seq<User>)
  {
    forall i, j :: 0 <= i < j < |users| ==> users[i].codeName != users[j].codeName
  }

  predicate UniqueMobiles(users: seq<User>)
  {
    forall i, j :: 0 <= i < j < |users| ==> users[i].mobile != users[j].mobile
  }

  /** Every stored code name is in the normal form the setters produce. */
  predicate NormalCodeNames(users: seq<User>)
  {
    forall i :: 0 <= i < |users| ==> NormalCodeName(users[i].codeName)
  }

  /** The form the setters leave a code name in: lowercase and trimmed. */
  predicate NormalCodeName(c: string)
  {
    IsLower(c) && Trim(c) == c
  }

  /** The normal form is a fixed point: storing an already normal code name
      does not change it. */
  lemma {:induction false} NormalizeIsNormal(s: string)
    ensures IsLower(NormalizeCodeName(s))
    ensures Trim(NormalizeCodeName(s)) == NormalizeCodeName(s)
  {
    TrimIdempotent(Lower(s));
  }
}
