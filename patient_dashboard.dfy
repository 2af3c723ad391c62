/** The patient dashboard's logic: the role guard, the id it queries with, and the
    placeholder branches of its date helpers. Parsing a string with `new Date` is an input:
    the instant or calendar date it denotes, or None when `getTime()` is NaN. */
module PatientDashboard {
  import opened JsValues
  import opened Records
  import opened Session
  import opened MainProcess
  import opened Pages
  import opened Calendar
  import opened RegisterForm

  const NoDate := "--/--/----"
  const BadDate := "Data inválida"
  const NoDateTime := "--/--/---- --:--"
  const BadDateTime := "Data/Hora inválida"

  /** What `formatDate` / `formatDateTime` show: a fixed text, or the instant handed to the
      pt-BR locale formatter. */
  datatype DateText = Placeholder(text: string) | Localized(instant: int)

  /** What `calculateAge` shows: a number of years, or '--'. */
  datatype Age = Years(n: nat) | Unknown

  /** `formatDate`: '--/--/----' for a falsy argument, 'Data inválida' for one that does not
      parse, otherwise the parsed instant, formatted. */
  function FormatDate(dateString: Value, parsed: Option<int>): (r: DateText)
    ensures r == Placeholder(NoDate) <==> !Truthy(dateString)
    ensures r == Placeholder(BadDate) <==> Truthy(dateString) && parsed.None?
    ensures r.Localized? <==> Truthy(dateString) && parsed.Some?
    ensures r.Localized? ==> r.instant == parsed.value
  {
    if !Truthy(dateString) then Placeholder(NoDate)
    else if parsed.None? then Placeholder(BadDate)
    else Localized(parsed.value)
  }

  /** `formatDateTime`: the same branches with its own placeholder texts. */
  function FormatDateTime(dateString: Value, parsed: Option<int>): (r: DateText)
    ensures r == Placeholder(NoDateTime) <==> !Truthy(dateString)
    ensures r == Placeholder(BadDateTime) <==> Truthy(dateString) && parsed.None?
    ensures r.Localized? <==> Truthy(dateString) && parsed.Some?
    ensures r.Localized? ==> r.instant == parsed.value
  {
    if !Truthy(dateString) then Placeholder(NoDateTime)
    else if parsed.None? then Placeholder(BadDateTime)
    else Localized(parsed.value)
  }

  /** `calculateAge`: '--' for a falsy or unparseable birth date and for a negative age,
      otherwise the completed years. */
  function CalculateAge(birthDate: Value, parsed: Option<CivilDate>, today: CivilDate): (r: Age)
    ensures r == Unknown <==> !Truthy(birthDate) || parsed.None? || !OnOrBefore(parsed.value, today)
    ensures r.Years? ==> r.n == YearsBetween(parsed.value, today)
  {
    if !Truthy(birthDate) then Unknown
    else if parsed.None? then Unknown
    else
      var age := YearsBetween(parsed.value, today);
      NegativeAgeMeansFutureBirth(parsed.value, today);
      if age >= 0 then Years(age) else Unknown
  }

  /** The id the appointment and file queries use: `patientId`, or `_id` when that is falsy. */
  function QueryId(session: Doc): (id: Value)
    ensures Truthy(Get(session, "patientId")) ==> id == Get(session, "patientId")
    ensures !Truthy(Get(session, "patientId")) ==> id == Get(session, "_id")
  {
    if Truthy(Get(session, "patientId")) then Get(session, "patientId") else Get(session, "_id")
  }

  /** After a patient login the query id is the patients-collection id; when the profile
      was missing it falls back to the account's own `_id`. */
  lemma QueryIdAfterLogin(account: Account, p: Profile)
    requires account.userType == Str("patient") && p.PatientProfile? && p.id != ""
    ensures QueryId(SessionFor(account, Some(p), account.userType)) == Str(p.id)
    ensures QueryId(SessionFor(account, None, account.userType)) == Str(account.id)
  {
    SessionOfPatient(account, p);
    SessionWithoutProfile(account, account.userType);
  }

  /** The guard keeps exactly the sessions whose account was registered as a patient,
      whatever profile was merged in, and sends a logged-out user to the login page. */
  lemma GuardAfterLogin(account: Account, profile: Option<Profile>, claimed: Value)
    ensures RoleGuard(Some(SessionFor(account, profile, claimed)), "patient").None? <==>
              account.userType == Str("patient")
    ensures RoleGuard(None, "patient") == Some(GoTo("auth/login"))
  {
    assert "userType" in AccountDoc(account);
    assert profile.Some? ==> "userType" !in ProfileDoc(profile.value);
  }

  /** A patient registered through the form always has a birth date, so after logging in
      the age shows '--' only when that date does not parse or lies in the future. */
  lemma RegisteredPatientAge(f: RegisterFields, account: Account, profileId: string, accountId: string,
                             parsed: Option<CivilDate>, today: CivilDate)
    requires ValidateRegister(f).None? && f.userType == "patient"
    requires account.userType == Str("patient") && profileId != ""
    ensures var p := NewProfile(RegisterPayload(f), profileId, accountId);
            var s := SessionFor(account, Some(p), account.userType);
            CalculateAge(Get(s, "birthDate"), parsed, today) == Unknown <==>
              parsed.None? || !OnOrBefore(parsed.value, today)
  {
    var p := NewProfile(RegisterPayload(f), profileId, accountId);
    PayloadMatchesProfile(f, profileId, accountId);
    SessionOfPatient(account, p);
  }
}
