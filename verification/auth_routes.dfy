/** The `/api/auth` routes: register, login and the code-name availability
    check. Token signing and the cookie are not modelled; the reply carries
    the account summary the routes send back. */
module AuthRoutes {
  import opened Common
  import opened Text
  import opened Store
  import opened UserModel

  const ALL_REQUIRED := "All fields are required"
  const CODENAME_TAKEN := "CodeName already taken"
  const MOBILE_TAKEN := "Mobile number already registered"
  const INVALID_CREDENTIALS := "Invalid credentials"
  const SERVER_FAILURE := "Server error"

  /** The `location` object of a request body; a coordinate the client
      left out is `None`. */
  datatype LocationInput = LocationInput(latitude: Option<int>, longitude: Option<int>)

  /** The `user` object of a successful register or login reply. */
  datatype Account = Account(id: UserId, fullName: string, codeName: string, isAdmin: bool)

  function AccountOf(u: User): Account
  {
    Account(u.id, u.fullName, u.codeName, u.isAdmin)
  }

  /** `User.findOne({ codeName: c })`: the position of the first user with
      this exact stored code name. */
  function CodeNameIndex(users: seq<User>, c: string): (r: Option<nat>)
    ensures r.Some? ==> r.value < |users| && users[r.value].codeName == c
                        && forall j :: 0 <= j < r.value ==> users[j].codeName != c
    ensures r.None? <==> forall j :: 0 <= j < |users| ==> users[j].codeName != c
  {
    if |users| == 0 then None
    else if users[0].codeName == c then Some(0)
    else match CodeNameIndex(users[1..], c)
      case None => None
      case Some(i) => Some(i + 1)
  }

  predicate CodeNameTaken(users: seq<User>, c: string)
  {
    exists i :: 0 <= i < |users| && users[i].codeName == c
  }

  predicate MobileTaken(users: seq<User>, mobile: string)
  {
    exists i :: 0 <= i < |users| && users[i].mobile == mobile
  }

  /** Every field of the register body is present and truthy; the empty
      string stands for an absent one. */
  predicate AllPresent(fullName: string, codeName: string, mobile: string, password: string,
                       location: Option<LocationInput>)
  {
    fullName != "" && codeName != "" && mobile != "" && password != "" && location.Some?
  }

  /** The record the route hands to `new User`: the code name already
      lowercased, the coordinates as sent. */
  function RegisterDraft(fullName: string, codeName: string, mobile: string, password: string,
                         loc: LocationInput): Draft
  {
    Draft(fullName, Lower(codeName), mobile, password, loc.latitude, loc.longitude)
  }

  /** The value a code-name lookup matches on. The routes lowercase the
      input, and the schema casts a query value through the path's setters
      (`trim`, `lowercase`) before matching, so the lookup uses the normal
      form a stored code name has. */
  function LookupKey(c: string): (k: string)
    ensures k == Lower(Trim(c))
    ensures NormalCodeName(k)
  {
    TrimLowerCommute(c);
    LowerIdempotent(Trim(c));
    NormalizeIsNormal(Lower(c));
    NormalizeCodeName(Lower(c))
  }

  /** POST `/register`. The duplicate check and the stored code name use the
      same normal form, so a code name that passes the check never collides
      at the unique index. A draft the schema rejects is a 500. */
  function Register(db: Db, fullName: string, codeName: string, mobile: string, password: string,
                    location: Option<LocationInput>, newId: UserId, now: nat): (r: Answer<Account>)
    ensures !AllPresent(fullName, codeName, mobile, password, location) ==>
              r == Answer(db, Err(BAD_REQUEST, ALL_REQUIRED))
    ensures AllPresent(fullName, codeName, mobile, password, location)
            && CodeNameTaken(db.users, Lower(Trim(codeName))) ==>
              r == Answer(db, Err(BAD_REQUEST, CODENAME_TAKEN))
    ensures AllPresent(fullName, codeName, mobile, password, location)
            && !CodeNameTaken(db.users, Lower(Trim(codeName))) && MobileTaken(db.users, mobile) ==>
              r == Answer(db, Err(BAD_REQUEST, MOBILE_TAKEN))
    ensures AllPresent(fullName, codeName, mobile, password, location)
            && !CodeNameTaken(db.users, Lower(Trim(codeName))) && !MobileTaken(db.users, mobile) ==>
              var draft := RegisterDraft(fullName, codeName, mobile, password, location.value);
              && (!Admissible(draft) ==> r == Answer(db, Err(SERVER_ERROR, SERVER_FAILURE)))
              && (Admissible(draft) ==>
                    && r.reply.Ok? && r.reply.code == CREATED
                    && var u := User(newId, Trim(fullName), Lower(Trim(codeName)), mobile, password,
                                     Location(draft.latitude.value, draft.longitude.value), false, false, now, now);
                    && r.reply.value == AccountOf(u)
                    && r.db == db.(users := db.users + [u]))
  {
    if !AllPresent(fullName, codeName, mobile, password, location) then Answer(db, Err(BAD_REQUEST, ALL_REQUIRED))
    else if CodeNameTaken(db.users, LookupKey(codeName)) then Answer(db, Err(BAD_REQUEST, CODENAME_TAKEN))
    else if MobileTaken(db.users, mobile) then Answer(db, Err(BAD_REQUEST, MOBILE_TAKEN))
    else
      TrimLowerCommute(codeName);
      LowerIdempotent(Trim(codeName));
      match Build(RegisterDraft(fullName, codeName, mobile, password, location.value), newId, now)
      case None => Answer(db, Err(SERVER_ERROR, SERVER_FAILURE))
      case Some(u) => Answer(db.(users := db.users + [u]), Ok(CREATED, AccountOf(u)))
  }

  /** Registration keeps both unique indexes and the code-name normal form. */
  lemma {:induction false} RegisterPreservesInvariants(db: Db, fullName: string, codeName: string, mobile: string,
                                                       password: string, location: Option<LocationInput>,
                                                       newId: UserId, now: nat)
    requires UniqueCodeNames(db.users) && UniqueMobiles(db.users) && NormalCodeNames(db.users)
    ensures var after := Register(db, fullName, codeName, mobile, password, location, newId, now).db;
            UniqueCodeNames(after.users) && UniqueMobiles(after.users) && NormalCodeNames(after.users)
  {
    if AllPresent(fullName, codeName, mobile, password, location) && !CodeNameTaken(db.users, Lower(Trim(codeName)))
       && !MobileTaken(db.users, mobile) {
      var draft := RegisterDraft(fullName, codeName, mobile, password, location.value);
      if Admissible(draft) {
        var key := LookupKey(codeName);
        var u := User(newId, Trim(fullName), key, mobile, password,
                      Location(draft.latitude.value, draft.longitude.value), false, false, now, now);
        AppendKeepsInvariants(db.users, u);
      }
    }
  }

  lemma AppendKeepsInvariants(users: seq<User>, u: User)
    requires UniqueCodeNames(users) && UniqueMobiles(users) && NormalCodeNames(users)
    requires !CodeNameTaken(users, u.codeName) && !MobileTaken(users, u.mobile)
    requires NormalCodeName(u.codeName)
    ensures var us := users + [u];
            UniqueCodeNames(us) && UniqueMobiles(us) && NormalCodeNames(us)
  {
    AppendKeepsUnique(users, u);
    AppendKeepsNormal(users, u);
  }

  lemma AppendKeepsUnique(users: seq<User>, u: User)
    requires UniqueCodeNames(users) && UniqueMobiles(users)
    requires !CodeNameTaken(users, u.codeName) && !MobileTaken(users, u.mobile)
    ensures UniqueCodeNames(users + [u]) && UniqueMobiles(users + [u])
  {
    var us := users + [u];
    forall i, j | 0 <= i < j < |us| ensures us[i].codeName != us[j].codeName && us[i].mobile != us[j].mobile {
      assert us[i] == users[i];
      if j < |users| {
        assert us[j] == users[j];
      }
    }
  }

  lemma AppendKeepsNormal(users: seq<User>, u: User)
    requires NormalCodeNames(users) && NormalCodeName(u.codeName)
    ensures NormalCodeNames(users + [u])
  {
    var us := users + [u];
    forall i | 0 <= i < |us| ensures NormalCodeName(us[i].codeName) {
      StillNormal(users, u, i);
    }
  }

  /** Position `i` of the grown collection holds an old or the new code name. */
  lemma StillNormal(users: seq<User>, u: User, i: nat)
    requires NormalCodeNames(users) && NormalCodeName(u.codeName) && i <= |users|
    ensures NormalCodeName((users + [u])[i].codeName)
  {
    if i < |users| {
      assert (users + [u])[i] == users[i];
    } else {
      assert (users + [u])[i] == u;
    }
  }

  /** POST `/check-codename`. An absent code name makes `toLowerCase`
      throw, which the route reports as a 500. */
  function CheckCodeName(db: Db, codeName: Option<string>): (r: Reply<bool>)
    ensures codeName.None? ==> r == Err(SERVER_ERROR, SERVER_FAILURE)
    ensures codeName.Some? ==> r.Ok? && r.code == OK
    ensures codeName.Some? ==>
              (r.value <==> forall i :: 0 <= i < |db.users| ==> db.users[i].codeName != Lower(Trim(codeName.value)))
  {
    match codeName
    case None => Err(SERVER_ERROR, SERVER_FAILURE)
    case Some(c) => Ok(OK, CodeNameIndex(db.users, LookupKey(c)).None?)
  }

  /** After `c` is registered, every variant of it that differs only in
      letter case or outer whitespace is reported taken. */
  lemma CaseVariantsUnavailable(db: Db, fullName: string, c: string, mobile: string, password: string,
                                location: Option<LocationInput>, newId: UserId, now: nat, variant: string)
    requires Register(db, fullName, c, mobile, password, location, newId, now).reply.Ok?
    requires Lower(Trim(variant)) == Lower(Trim(c))
    ensures CheckCodeName(Register(db, fullName, c, mobile, password, location, newId, now).db, Some(variant))
            == Ok(OK, false)
  {
    RegisterOkAppends(db, fullName, c, mobile, password, location, newId, now);
  }

  /** A registration that succeeds appended one user, stored under the
      normal form no earlier user had, with the given password, and
      answered with that user's account. */
  lemma RegisterOkAppends(db: Db, fullName: string, c: string, mobile: string, password: string,
                          location: Option<LocationInput>, newId: UserId, now: nat)
    requires Register(db, fullName, c, mobile, password, location, newId, now).reply.Ok?
    ensures var r := Register(db, fullName, c, mobile, password, location, newId, now);
            && |r.db.users| == |db.users| + 1
            && r.db.users[..|db.users|] == db.users
            && !CodeNameTaken(db.users, Lower(Trim(c)))
            && r.db.users[|db.users|].codeName == Lower(Trim(c))
            && r.db.users[|db.users|].password == password
            && r.reply.value == AccountOf(r.db.users[|db.users|])
  {
    var r := Register(db, fullName, c, mobile, password, location, newId, now);
    assert AllPresent(fullName, c, mobile, password, location);
    assert r.db.users[..|db.users|] == db.users;
  }

  /** After `c` is registered, registering any such variant again is the
      "already taken" 400 and changes nothing. */
  lemma VariantRegistrationRefused(db: Db, fullName: string, c: string, mobile: string, password: string,
                                   location: Option<LocationInput>, newId: UserId, now: nat,
                                   fullName2: string, variant: string, mobile2: string, password2: string,
                                   location2: Option<LocationInput>, newId2: UserId, now2: nat)
    requires Register(db, fullName, c, mobile, password, location, newId, now).reply.Ok?
    requires Lower(Trim(variant)) == Lower(Trim(c))
    requires AllPresent(fullName2, variant, mobile2, password2, location2)
    ensures var after := Register(db, fullName, c, mobile, password, location, newId, now).db;
            Register(after, fullName2, variant, mobile2, password2, location2, newId2, now2)
            == Answer(after, Err(BAD_REQUEST, CODENAME_TAKEN))
  {
    var after := Register(db, fullName, c, mobile, password, location, newId, now).db;
    assert after.users[|db.users|].codeName == Lower(Trim(variant));
  }

  // ------------------------------------------------------------ login

  /** A truthy coordinate pair replaces the stored location. */
  function NewLocation(loc: Option<LocationInput>): (r: Option<Location>)
    ensures r.Some? <==> loc.Some? && loc.value.latitude.Some? && loc.value.latitude.value != 0
                         && loc.value.longitude.Some? && loc.value.longitude.value != 0
  {
    match loc
    case Some(LocationInput(Some(lat), Some(lon))) =>
      if lat != 0 && lon != 0 then Some(Location(lat, lon)) else None
    case _ => None
  }

  /** POST `/login`. The two credential failures give the same reply. */
  function Login(db: Db, codeName: Option<string>, password: Option<string>, location: Option<LocationInput>,
                 now: nat): (r: Answer<Account>)
    ensures codeName.None? ==> r == Answer(db, Err(SERVER_ERROR, SERVER_FAILURE))
    ensures codeName.Some? && !CodeNameTaken(db.users, Lower(Trim(codeName.value))) ==>
              r == Answer(db, Err(UNAUTHORIZED, INVALID_CREDENTIALS))
    ensures codeName.Some? && CodeNameTaken(db.users, Lower(Trim(codeName.value))) ==>
              var i := CodeNameIndex(db.users, Lower(Trim(codeName.value))).value;
              var u := db.users[i];
              && (password != Some(u.password) ==> r == Answer(db, Err(UNAUTHORIZED, INVALID_CREDENTIALS)))
              && (password == Some(u.password) ==>
                    var v := u.(lastSeen := now,
                                location := if NewLocation(location).Some? then NewLocation(location).value else u.location);
                    && r.reply == Ok(OK, AccountOf(u))
                    && r.db == db.(users := db.users[i := v]))
  {
    match codeName
    case None => Answer(db, Err(SERVER_ERROR, SERVER_FAILURE))
    case Some(c) =>
      match CodeNameIndex(db.users, LookupKey(c))
      case None => Answer(db, Err(UNAUTHORIZED, INVALID_CREDENTIALS))
      case Some(i) =>
        var u := db.users[i];
        if !ComparePassword(u, password) then Answer(db, Err(UNAUTHORIZED, INVALID_CREDENTIALS))
        else
          var v := u.(lastSeen := now,
                      location := if NewLocation(location).Some? then NewLocation(location).value else u.location);
          Answer(db.(users := db.users[i := v]), Ok(OK, AccountOf(u)))
  }

  /** Login touches one record and never a code name or mobile, so the
      indexes and the normal form survive it. */
  lemma {:induction false} LoginPreservesInvariants(db: Db, codeName: Option<string>, password: Option<string>,
                                                    location: Option<LocationInput>, now: nat)
    requires UniqueCodeNames(db.users) && UniqueMobiles(db.users) && NormalCodeNames(db.users)
    ensures var after := Login(db, codeName, password, location, now).db;
            && |after.users| == |db.users|
            && (forall i :: 0 <= i < |db.users| ==> SameCredentials(after.users[i], db.users[i]))
            && UniqueCodeNames(after.users) && UniqueMobiles(after.users) && NormalCodeNames(after.users)
  {
    var after := Login(db, codeName, password, location, now).db;
    if codeName.Some? && CodeNameTaken(db.users, Lower(Trim(codeName.value))) {
      var i := CodeNameIndex(db.users, Lower(Trim(codeName.value))).value;
      var u := db.users[i];
      if password == Some(u.password) {
        var v := u.(lastSeen := now,
                    location := if NewLocation(location).Some? then NewLocation(location).value else u.location);
        UpdateKeepsInvariants(db.users, i, v);
      } else {
        SameUsers(db.users);
      }
    } else {
      SameUsers(db.users);
    }
  }

  /** Two records agree on everything the indexes and the login check read. */
  predicate SameCredentials(a: User, b: User)
  {
    a.codeName == b.codeName && a.mobile == b.mobile && a.password == b.password
  }

  lemma SameUsers(users: seq<User>)
    ensures forall i :: 0 <= i < |users| ==> SameCredentials(users[i], users[i])
  {
  }

  /** Replacing one record by one with the same credentials keeps both
      unique indexes and the code-name normal form. */
  lemma UpdateKeepsInvariants(users: seq<User>, i: nat, v: User)
    requires i < |users| && SameCredentials(v, users[i])
    requires UniqueCodeNames(users) && UniqueMobiles(users) && NormalCodeNames(users)
    ensures var us := users[i := v];
            && (forall k :: 0 <= k < |users| ==> SameCredentials(us[k], users[k]))
            && UniqueCodeNames(us) && UniqueMobiles(us) && NormalCodeNames(us)
  {
    var us := users[i := v];
    forall k | 0 <= k < |users| ensures SameCredentials(us[k], users[k]) {
    }
    forall a, b | 0 <= a < b < |us| ensures us[a].codeName != us[b].codeName && us[a].mobile != us[b].mobile {
      assert SameCredentials(us[a], users[a]) && SameCredentials(us[b], users[b]);
    }
    forall k | 0 <= k < |us| ensures NormalCodeName(us[k].codeName) {
      assert SameCredentials(us[k], users[k]);
    }
  }

  /** Position `k` holds the first user stored under code name `c`. */
  predicate FirstWithCodeName(users: seq<User>, c: string, k: nat)
  {
    k < |users| && users[k].codeName == c && forall j :: 0 <= j < k ==> users[j].codeName != c
  }

  lemma FirstIsIndex(users: seq<User>, c: string, k: nat)
    requires FirstWithCodeName(users, c, k)
    ensures CodeNameIndex(users, c) == Some(k)
  {
    var found := CodeNameIndex(users, c);
    assert found.Some?;
    assert !(k < found.value) && !(found.value < k);
  }

  /** A collection grown by one user, under a code name the old part does
      not hold, has that user first under it. */
  lemma FirstAfterUnused(users: seq<User>, grown: seq<User>, c: string)
    requires |grown| == |users| + 1 && grown[..|users|] == users
    requires !CodeNameTaken(users, c) && grown[|users|].codeName == c
    ensures FirstWithCodeName(grown, c, |users|)
  {
    forall j | 0 <= j < |users| ensures grown[j].codeName != c {
      assert grown[j] == users[j];
    }
  }

  /** A login that succeeds is exactly one whose password matches the first
      user stored under the input's normal form. */
  lemma LoginSucceedsIffPasswordMatches(db: Db, c: string, password: Option<string>,
                                        location: Option<LocationInput>, now: nat)
    ensures Login(db, Some(c), password, location, now).reply.Ok? <==>
              exists k: nat :: FirstWithCodeName(db.users, Lower(Trim(c)), k) && ComparePassword(db.users[k], password)
  {
    var key := Lower(Trim(c));
    var found := CodeNameIndex(db.users, key);
    if found.Some? {
      assert FirstWithCodeName(db.users, key, found.value);
    }
    if exists k: nat :: FirstWithCodeName(db.users, key, k) && ComparePassword(db.users[k], password) {
      var k: nat :| FirstWithCodeName(db.users, key, k) && ComparePassword(db.users[k], password);
      FirstIsIndex(db.users, key, k);
    }
  }

  /** A freshly registered user logs in with any variant of the code name
      (letter case, outer whitespace) and the registered password, and gets
      the account the registration returned. */
  lemma RegisteredVariantLogsIn(db: Db, fullName: string, c: string, mobile: string, password: string,
                                location: Option<LocationInput>, newId: UserId, now: nat,
                                variant: string, location2: Option<LocationInput>, now2: nat)
    requires Register(db, fullName, c, mobile, password, location, newId, now).reply.Ok?
    requires Lower(Trim(variant)) == Lower(Trim(c))
    ensures var reg := Register(db, fullName, c, mobile, password, location, newId, now);
            Login(reg.db, Some(variant), Some(password), location2, now2).reply == Ok(OK, reg.reply.value)
  {
    RegisterOkAppends(db, fullName, c, mobile, password, location, newId, now);
    var reg := Register(db, fullName, c, mobile, password, location, newId, now);
    var n := |db.users|;
    FirstAfterUnused(db.users, reg.db.users, Lower(Trim(c)));
    LoginFindsFirst(reg.db, variant, password, location2, now2, n);
  }

  /** Login with the password of the first user under the input's normal
      form succeeds with that user's account. */
  lemma LoginFindsFirst(db: Db, c: string, password: string, location: Option<LocationInput>, now: nat, k: nat)
    requires FirstWithCodeName(db.users, Lower(Trim(c)), k) && db.users[k].password == password
    ensures Login(db, Some(c), Some(password), location, now).reply == Ok(OK, AccountOf(db.users[k]))
  {
    FirstIsIndex(db.users, Lower(Trim(c)), k);
  }
}
