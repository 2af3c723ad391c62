/** The pure part of the `user-login` handler: the account lookup and its three checks, the
    profile lookup, and the session object built from both. */
module Session {
  import opened JsValues
  import opened NeDb
  import opened Passwords
  import opened Records

  const UserNotFound := "Usuário não encontrado"
  const WrongUserType := "Tipo de usuário incorreto"
  const WrongPassword := "Senha incorreta"
  const LoginServerError := "Erro no servidor"

  /** `db.users.findOne({email})`. */
  function FindAccount(users: seq<Account>, email: Value): (r: Option<Account>)
    ensures r.Some? ==> r.value in users && Matches(r.value.email, email)
    ensures r.None? <==> forall u :: u in users ==> !Matches(u.email, email)
  {
    FindFirst(users, (u: Account) => Matches(u.email, email))
  }

  /** With the email index in place the lookup is determined: it returns the one account
      that has the queried email. */
  lemma FindAccountUnique(users: seq<Account>, u: Account, email: Value)
    requires UniqueAccounts(users)
    requires u in users && Matches(u.email, email)
    ensures FindAccount(users, email) == Some(u)
  {
    var r := FindAccount(users, email);
    assert r.Some?;
  }

  /** `findOne({userId: user._id})` on the collection the claimed user type selects:
      `patients` for 'patient', `doctors` for any other value. */
  function LookupProfile(patients: seq<Profile>, doctors: seq<Profile>, claimed: Value, accountId: string): (r: Option<Profile>)
    ensures r.Some? ==> r.value.userId == accountId &&
                        r.value in (if claimed == Str("patient") then patients else doctors)
    ensures r.None? <==> forall p :: p in (if claimed == Str("patient") then patients else doctors) ==>
                                       p.userId != accountId
  {
    var collection := if claimed == Str("patient") then patients else doctors;
    FindFirst(collection, (p: Profile) => Matches(Str(p.userId), Str(accountId)))
  }

  /** With the `userId` index in place the profile lookup is determined too. */
  lemma LookupProfileUnique(patients: seq<Profile>, doctors: seq<Profile>, claimed: Value, p: Profile)
    requires UniqueProfiles(if claimed == Str("patient") then patients else doctors)
    requires p in (if claimed == Str("patient") then patients else doctors)
    ensures LookupProfile(patients, doctors, claimed, p.userId) == Some(p)
  {
    var r := LookupProfile(patients, doctors, claimed, p.userId);
    assert r.Some?;
  }

  /** The three checks of `user-login`, in source order: unknown email, then a user type
      differing from the stored one, then a password bcrypt rejects. When bcrypt itself
      rejects its arguments (a truthy password that is not a string), the `catch` answers
      'Erro no servidor'. */
  function Authenticate(users: seq<Account>, b: Bcrypt, credentials: Doc): (r: Reply<Account>)
    ensures r.Ok? ==> r.data in users && Matches(r.data.email, Get(credentials, "email")) &&
                      StrictEquals(r.data.userType, Get(credentials, "userType")) &&
                      ComparePassword(b, Get(credentials, "password"), r.data.password) == Some(true)
    ensures r.Fail? ==> r.message in {UserNotFound, WrongUserType, WrongPassword, LoginServerError}
    ensures r == Fail(UserNotFound) <==> forall u :: u in users ==> !Matches(u.email, Get(credentials, "email"))
  {
    match FindAccount(users, Get(credentials, "email"))
    case None => Fail(UserNotFound)
    case Some(user) =>
      if !StrictEquals(user.userType, Get(credentials, "userType")) then Fail(WrongUserType)
      else
        match ComparePassword(b, Get(credentials, "password"), user.password)
        case None => Fail(LoginServerError)
        case Some(isMatch) => if !isMatch then Fail(WrongPassword) else Ok(user)
  }

  /** Which failure wins: for the account holding the queried email, a user-type mismatch is
      reported whatever the password, a wrong password only when the type is right, bcrypt's
      rejection of a non-string argument as the server error, and login succeeds exactly
      when the type is right and bcrypt accepts. */
  lemma LoginCheckOrder(users: seq<Account>, b: Bcrypt, credentials: Doc, u: Account)
    requires UniqueAccounts(users)
    requires u in users && Matches(u.email, Get(credentials, "email"))
    ensures !StrictEquals(u.userType, Get(credentials, "userType")) ==> Authenticate(users, b, credentials) == Fail(WrongUserType)
    ensures StrictEquals(u.userType, Get(credentials, "userType")) &&
            ComparePassword(b, Get(credentials, "password"), u.password) == Some(false) ==>
              Authenticate(users, b, credentials) == Fail(WrongPassword)
    ensures Authenticate(users, b, credentials) == Fail(LoginServerError) <==>
              StrictEquals(u.userType, Get(credentials, "userType")) &&
              ComparePassword(b, Get(credentials, "password"), u.password).None?
    ensures Authenticate(users, b, credentials) == Ok(u) <==>
              StrictEquals(u.userType, Get(credentials, "userType")) &&
              ComparePassword(b, Get(credentials, "password"), u.password) == Some(true)
  {
    FindAccountUnique(users, u, Get(credentials, "email"));
  }

  /** `currentUser = {...user, ...userData}` followed by the `userId`, `patientId` and
      `doctorId` assignments. */
  function SessionFor(account: Account, profile: Option<Profile>, claimed: Value): (s: Doc)
    // the account's `_id` is always recorded as userId
    ensures Get(s, "userId") == Str(account.id)
    // on a key both records have, the profile's value wins
    ensures profile.Some? ==> forall k :: k in ProfileDoc(profile.value) && k != "userId" ==>
                                Get(s, k) == ProfileDoc(profile.value)[k]
    // the account's other fields, the password hash among them, are kept
    ensures forall k :: k in AccountDoc(account) && (profile.None? || k !in ProfileDoc(profile.value)) ==>
                          Get(s, k) == AccountDoc(account)[k]
    // patientId / doctorId only for a found profile with a truthy `_id`, and for the matching claim
    ensures "patientId" in s <==> profile.Some? && Truthy(Str(profile.value.id)) && claimed == Str("patient")
    ensures "doctorId" in s <==> profile.Some? && Truthy(Str(profile.value.id)) && claimed == Str("doctor")
    ensures "patientId" in s ==> s["patientId"] == Str(profile.value.id)
    ensures "doctorId" in s ==> s["doctorId"] == Str(profile.value.id)
    // no other keys
    ensures forall k :: k in s ==> k in AccountDoc(account) || (profile.Some? && k in ProfileDoc(profile.value)) ||
                                   k in {"userId", "patientId", "doctorId"}
  {
    var userData: Doc := if profile.Some? then ProfileDoc(profile.value) else map[];
    var merged := (AccountDoc(account) + userData)["userId" := Str(account.id)];
    if profile.Some? && Truthy(Get(userData, "_id")) then
      if claimed == Str("patient") then merged["patientId" := Get(userData, "_id")]
      else if claimed == Str("doctor") then merged["doctorId" := Get(userData, "_id")]
      else merged
    else merged
  }

  /** The session a successful login leaves when the profile was found: `_id` and `email`
      are the profile's, `userId` is the account's `_id`, the role and the password hash
      come from the account, and exactly one of patientId / doctorId names the profile. */
  lemma SessionOfPatient(account: Account, p: Profile)
    requires account.userType == Str("patient") && p.PatientProfile? && p.id != ""
    ensures var s := SessionFor(account, Some(p), account.userType);
            Get(s, "_id") == Str(p.id) && Get(s, "email") == p.email &&
            Get(s, "userId") == Str(account.id) && Get(s, "userType") == Str("patient") &&
            Get(s, "password") == account.password && Get(s, "birthDate") == p.birthDate &&
            Get(s, "patientId") == Str(p.id) && "doctorId" !in s
  {
    var s := SessionFor(account, Some(p), account.userType);
    assert "_id" in ProfileDoc(p) && "email" in ProfileDoc(p) && "birthDate" in ProfileDoc(p);
    assert "userType" in AccountDoc(account) && "userType" !in ProfileDoc(p);
    assert "password" in AccountDoc(account) && "password" !in ProfileDoc(p);
  }

  /** Same for a doctor: `_id` is the doctors-collection id and doctorId names it too. */
  lemma SessionOfDoctor(account: Account, d: Profile)
    requires account.userType == Str("doctor") && d.DoctorProfile? && d.id != ""
    ensures var s := SessionFor(account, Some(d), account.userType);
            Get(s, "_id") == Str(d.id) && Get(s, "userId") == Str(account.id) &&
            Get(s, "userType") == Str("doctor") && Get(s, "crm") == d.crm &&
            Get(s, "doctorId") == Str(d.id) && "patientId" !in s
  {
    var s := SessionFor(account, Some(d), account.userType);
    assert "_id" in ProfileDoc(d) && "crm" in ProfileDoc(d);
    assert "userType" in AccountDoc(account) && "userType" !in ProfileDoc(d);
  }

  /** A missing profile does not fail the login: the session is the account itself plus
      userId, with no patientId or doctorId, and its `_id` is the account's. */
  lemma SessionWithoutProfile(account: Account, claimed: Value)
    ensures var s := SessionFor(account, None, claimed);
            Get(s, "_id") == Str(account.id) && Get(s, "userId") == Str(account.id) &&
            "patientId" !in s && "doctorId" !in s && Get(s, "password") == account.password
  {
    assert "_id" in AccountDoc(account) && "password" in AccountDoc(account);
  }
}
