/** The doctor dashboard's logic: its `calculateAge` (which clamps instead of answering '--'),
    its `formatDate`, the `AAAA-MM-DD HH:MM` shape test and the guards and request of the
    "Cadastrar Consulta" button. Prompts, the confirm box and `new Date` are inputs. */
module DoctorDashboard {
  import opened JsValues
  import opened Records
  import opened Session
  import opened MainProcess
  import opened Pages
  import opened Calendar
  import Patient = PatientDashboard

  const NoDate := "--/--/----"
  const NoDoctor := "Erro: Não foi possível identificar o médico logado."
  const Cancelled := "Agendamento cancelado."
  const BadFormat := "Formato de data/hora inválido. Use AAAA-MM-DD HH:MM."
  const BadDateTime := "Data ou hora inválida. Verifique os valores inseridos."

  /** What this `calculateAge` shows: '--', a number of years, or NaN (an unparseable birth
      date is not checked for, and NaN survives the arithmetic and the `< 0` test). */
  datatype Age = Unknown | Years(n: nat) | NotANumber

  /** `calculateAge`: '--' only for a falsy birth date; a future birth date gives 0. */
  function CalculateAge(birthDate: Value, parsed: Option<CivilDate>, today: CivilDate): (r: Age)
    ensures r == Unknown <==> !Truthy(birthDate)
    ensures r == NotANumber <==> Truthy(birthDate) && parsed.None?
    ensures r.Years? ==> parsed.Some? &&
                         (OnOrBefore(parsed.value, today) ==> r.n == YearsBetween(parsed.value, today)) &&
                         (!OnOrBefore(parsed.value, today) ==> r.n == 0)
  {
    if !Truthy(birthDate) then Unknown
    else if parsed.None? then NotANumber
    else
      var age := YearsBetween(parsed.value, today);
      NegativeAgeMeansFutureBirth(parsed.value, today);
      if age < 0 then Years(0) else Years(age)
  }

  /** The two `calculateAge` variants agree on a missing date and on a birth date not after
      today; for a future birth date the patient page shows '--' where this one shows 0, and
      for an unparseable one '--' where this one shows NaN. */
  lemma AgeVariantsCompared(birthDate: Value, parsed: Option<CivilDate>, today: CivilDate)
    ensures !Truthy(birthDate) ==>
              Patient.CalculateAge(birthDate, parsed, today) == Patient.Unknown &&
              CalculateAge(birthDate, parsed, today) == Unknown
    ensures Truthy(birthDate) && parsed.None? ==>
              Patient.CalculateAge(birthDate, parsed, today) == Patient.Unknown &&
              CalculateAge(birthDate, parsed, today) == NotANumber
    ensures Truthy(birthDate) && parsed.Some? && OnOrBefore(parsed.value, today) ==>
              Patient.CalculateAge(birthDate, parsed, today).Years? &&
              CalculateAge(birthDate, parsed, today) == Years(Patient.CalculateAge(birthDate, parsed, today).n)
    ensures Truthy(birthDate) && parsed.Some? && !OnOrBefore(parsed.value, today) ==>
              Patient.CalculateAge(birthDate, parsed, today) == Patient.Unknown &&
              CalculateAge(birthDate, parsed, today) == Years(0)
  {
    if Truthy(birthDate) && parsed.Some? && OnOrBefore(parsed.value, today) {
      NegativeAgeMeansFutureBirth(parsed.value, today);
    }
  }

  /** What this `formatDate` shows: the placeholder, the UTC calendar date of the argument
      rebuilt as a local date and formatted, or the engine's text for an invalid Date. */
  datatype DateText = Placeholder(text: string) | LocalDate(date: CivilDate) | InvalidDate

  /** The year `new Date(year, month, day)` gives a local date: the constructor reads a
      year from 0 to 99 as 1900 plus that year. */
  function LocalYear(year: int): (y: int)
    ensures 0 <= year <= 99 ==> y == 1900 + year
    ensures !(0 <= year <= 99) ==> y == year
  {
    if 0 <= year <= 99 then 1900 + year else year
  }

  /** `formatDate`: '--/--/----' for a falsy argument; there is no validity check, so an
      unparseable argument reaches the formatter as an invalid Date. Otherwise the UTC day
      and month are kept, and the year goes through the two-digit-year mapping. */
  function FormatDate(dateString: Value, utc: Option<CivilDate>): (r: DateText)
    ensures r == Placeholder(NoDate) <==> !Truthy(dateString)
    ensures r == InvalidDate <==> Truthy(dateString) && utc.None?
    ensures r.LocalDate? <==> Truthy(dateString) && utc.Some?
    ensures r.LocalDate? ==> r.date.month == utc.value.month && r.date.day == utc.value.day &&
                             r.date.year == LocalYear(utc.value.year)
  {
    if !Truthy(dateString) then Placeholder(NoDate)
    else if utc.None? then InvalidDate
    else LocalDate(CivilDate(LocalYear(utc.value.year), utc.value.month, utc.value.day))
  }

  /** From year 100 on, the date shown is the UTC date; a year from 0 to 99 is shown 1900
      years later, so '0050-06-01' appears as 01/06/1950. */
  lemma FormatDateShowsUtcDate(dateString: Value, utc: CivilDate)
    requires Truthy(dateString)
    ensures utc.year >= 100 || utc.year < 0 ==> FormatDate(dateString, Some(utc)) == LocalDate(utc)
    ensures 0 <= utc.year <= 99 ==>
              FormatDate(dateString, Some(utc)) == LocalDate(CivilDate(utc.year + 1900, utc.month, utc.day))
  {
  }

  /** `\d` in a regular expression without the `u` flag: an ASCII digit. */
  predicate IsDigit(c: char)
  {
    '0' <= c <= '9'
  }

  predicate AllDigits(s: string)
  {
    forall i :: 0 <= i < |s| ==> IsDigit(s[i])
  }

  /** `/^\d{4}-\d{2}-\d{2} \d{2}:\d{2}$/`: `D` stands for one digit, every other character
      for itself, and the match spans the whole string. */
  const DateTimePattern := "DDDD-DD-DD DD:DD"

  predicate MatchesDateTimeShape(s: string)
  {
    |s| == |DateTimePattern| &&
    forall i :: 0 <= i < |s| ==> if DateTimePattern[i] == 'D' then IsDigit(s[i]) else s[i] == DateTimePattern[i]
  }

  /** The five numbers a shaped string spells out. The shape bounds their width only: a
      month of 99 passes it and is left to the `new Date` check. */
  datatype DateTimeFields = DateTimeFields(year: nat, month: nat, day: nat, hour: nat, minute: nat)

  predicate FitsShape(f: DateTimeFields)
  {
    f.year < 10000 && f.month < 100 && f.day < 100 && f.hour < 100 && f.minute < 100
  }

  function Pow10(w: nat): nat
  {
    if w == 0 then 1 else 10 * Pow10(w - 1)
  }

  /** `n` in exactly `w` decimal digits, zero-padded, keeping the lowest `w` digits. */
  function Digits(n: nat, w: nat): (s: string)
    ensures |s| == w && AllDigits(s)
  {
    if w == 0 then [] else Digits(n / 10, w - 1) + [('0' as int + n % 10) as char]
  }

  /** The number a digit string denotes. */
  function DigitValue(s: string): nat
    requires AllDigits(s)
  {
    if s == [] then 0 else DigitValue(s[..|s| - 1]) * 10 + (s[|s| - 1] as int - '0' as int)
  }

  /** Round trip: a number below 10^w read back from its `w` digits. */
  lemma {:induction false} DigitValueOfDigits(n: nat, w: nat)
    requires n < Pow10(w)
    ensures DigitValue(Digits(n, w)) == n
  {
    if w > 0 {
      var s := Digits(n, w);
      assert s[..|s| - 1] == Digits(n / 10, w - 1);
      DigitValueOfDigits(n / 10, w - 1);
    }
  }

  /** Round trip the other way: a digit string rewritten from its value, which is below 10^|s|. */
  lemma {:induction false} DigitsOfDigitValue(s: string)
    requires AllDigits(s)
    ensures DigitValue(s) < Pow10(|s|)
    ensures Digits(DigitValue(s), |s|) == s
  {
    if s != [] {
      var p := s[..|s| - 1];
      assert AllDigits(p) by {
        forall i | 0 <= i < |p| ensures IsDigit(p[i]) { assert p[i] == s[i]; }
      }
      DigitsOfDigitValue(p);
      var v := DigitValue(s);
      var d := s[|s| - 1] as int - '0' as int;
      assert v == DigitValue(p) * 10 + d;
      assert v / 10 == DigitValue(p) && v % 10 == d;
      assert s == p + [s[|s| - 1]];
    }
  }

  /** The string a user types for `f`. */
  function Render(f: DateTimeFields): (s: string)
    requires FitsShape(f)
  {
    Digits(f.year, 4) + "-" + Digits(f.month, 2) + "-" + Digits(f.day, 2) + " " +
    Digits(f.hour, 2) + ":" + Digits(f.minute, 2)
  }

  /** The fields of a string that has the shape. */
  function Parse(s: string): (f: DateTimeFields)
    requires MatchesDateTimeShape(s)
  {
    ShapeDigits(s);
    DateTimeFields(DigitValue(s[0..4]), DigitValue(s[5..7]), DigitValue(s[8..10]),
                   DigitValue(s[11..13]), DigitValue(s[14..16]))
  }

  /** The digit groups of a shaped string, and its separators. */
  lemma ShapeDigits(s: string)
    requires MatchesDateTimeShape(s)
    ensures AllDigits(s[0..4]) && AllDigits(s[5..7]) && AllDigits(s[8..10])
    ensures AllDigits(s[11..13]) && AllDigits(s[14..16])
    ensures s[4] == '-' && s[7] == '-' && s[10] == ' ' && s[13] == ':'
  {
    assert forall i :: 0 <= i < 16 ==> (DateTimePattern[i] == 'D' <==> i !in {4, 7, 10, 13});
    forall i | 0 <= i < 16 && i !in {4, 7, 10, 13} ensures IsDigit(s[i]) {
      assert DateTimePattern[i] == 'D';
    }
    assert DateTimePattern[4] == '-' && DateTimePattern[7] == '-';
    assert DateTimePattern[10] == ' ' && DateTimePattern[13] == ':';
  }

  /** Every string rendered from fields of the right width passes the test, and reads back
      as those fields. */
  lemma RenderThenParse(f: DateTimeFields)
    requires FitsShape(f)
    ensures MatchesDateTimeShape(Render(f))
    ensures Parse(Render(f)) == f
  {
    var s := Render(f);
    assert s[0..4] == Digits(f.year, 4);
    assert s[5..7] == Digits(f.month, 2);
    assert s[8..10] == Digits(f.day, 2);
    assert s[11..13] == Digits(f.hour, 2);
    assert s[14..16] == Digits(f.minute, 2);
    assert forall i :: 0 <= i < 16 ==> (DateTimePattern[i] == 'D' <==> i !in {4, 7, 10, 13});
    forall i | 0 <= i < 16 && i !in {4, 7, 10, 13} ensures IsDigit(s[i]) {
      if i < 4 { assert s[i] == s[0..4][i]; }
      else if i < 7 { assert s[i] == s[5..7][i - 5]; }
      else if i < 10 { assert s[i] == s[8..10][i - 8]; }
      else if i < 13 { assert s[i] == s[11..13][i - 11]; }
      else { assert s[i] == s[14..16][i - 14]; }
    }
    assert DateTimePattern[4] == '-' && DateTimePattern[7] == '-';
    assert DateTimePattern[10] == ' ' && DateTimePattern[13] == ':';
    DigitValueOfDigits(f.year, 4);
    DigitValueOfDigits(f.month, 2);
    DigitValueOfDigits(f.day, 2);
    DigitValueOfDigits(f.hour, 2);
    DigitValueOfDigits(f.minute, 2);
  }

  /** Every string that passes the test is the rendering of its own fields: the test
      accepts exactly the rendered strings. */
  lemma ParseThenRender(s: string)
    requires MatchesDateTimeShape(s)
    ensures FitsShape(Parse(s))
    ensures Render(Parse(s)) == s
  {
    ShapeDigits(s);
    DigitsOfDigitValue(s[0..4]);
    DigitsOfDigitValue(s[5..7]);
    DigitsOfDigitValue(s[8..10]);
    DigitsOfDigitValue(s[11..13]);
    DigitsOfDigitValue(s[14..16]);
    assert s == s[0..4] + [s[4]] + s[5..7] + [s[7]] + s[8..10] + [s[10]] + s[11..13] + [s[13]] + s[14..16];
  }

  /** What a click on "Cadastrar Consulta" ends in: an alert before any request, or the
      request sent to `scheduleAppointment`. */
  datatype Click = Alert(message: string) | Send(request: Doc)

  /** The click handler's guards in source order: a doctor's session, a non-empty date
      prompt, the shape test, and a date `new Date` can parse. */
  function ScheduleRules(user: Option<Doc>, dateInput: Option<string>, parsed: Option<int>): seq<Rule>
  {
    [Rule(user.Some? && Get(user.value, "userType") == Str("doctor"), NoDoctor),
     Rule(dateInput.Some? && dateInput.value != "", Cancelled),
     Rule(dateInput.Some? && MatchesDateTimeShape(dateInput.value), BadFormat),
     Rule(parsed.Some?, BadDateTime)]
  }

  /** `handleScheduleAppointmentClick`. `dateInput` and `reason` are the prompts' answers
      (None when cancelled), `parsed` what `new Date` makes of the date, `urgent` the
      confirm box's answer. The request carries the session's `_id` as `doctorUserId`, the
      button's patient id, the raw date string, the reason and the urgency flag. */
  function ScheduleClick(patientRecordId: string, user: Option<Doc>, dateInput: Option<string>,
                         parsed: Option<int>, reason: Option<string>, urgent: bool): (c: Click)
    ensures c.Alert? <==> FirstFailing(ScheduleRules(user, dateInput, parsed)).Some?
    ensures c.Alert? ==> c.message == FirstFailing(ScheduleRules(user, dateInput, parsed)).value
    ensures c.Send? ==> user.Some? && dateInput.Some? && MatchesDateTimeShape(dateInput.value) && parsed.Some?
    ensures c.Send? ==>
              c.request.Keys == {"doctorUserId", "patientRecordId", "appointmentDate", "reason", "urgent"} &&
              c.request["doctorUserId"] == Get(user.value, "_id") &&
              c.request["patientRecordId"] == Str(patientRecordId) &&
              c.request["appointmentDate"] == Str(dateInput.value) &&
              c.request["reason"] == (if reason.Some? then Str(reason.value) else Null) &&
              c.request["urgent"] == Bool(urgent)
  {
    var rules := ScheduleRules(user, dateInput, parsed);
    if user.None? || Get(user.value, "userType") != Str("doctor") then
      FirstFailingIs(rules, 0);
      Alert(NoDoctor)
    else if dateInput.None? || dateInput.value == "" then
      FirstFailingIs(rules, 1);
      Alert(Cancelled)
    else if !MatchesDateTimeShape(dateInput.value) then
      FirstFailingIs(rules, 2);
      Alert(BadFormat)
    else if parsed.None? then
      FirstFailingIs(rules, 3);
      Alert(BadDateTime)
    else
      var doctorUserId := Get(user.value, "_id");
      Send(map["doctorUserId" := doctorUserId, "patientRecordId" := Str(patientRecordId),
               "appointmentDate" := Str(dateInput.value),
               "reason" := if reason.Some? then Str(reason.value) else Null,
               "urgent" := Bool(urgent)])
  }

  /** The request the button sends never has the six fields `schedule-appointment` reads
      (it names them doctorUserId and patientRecordId and sends no names), so the handler
      answers 'Dados incompletos para agendamento.' and stores nothing. */
  lemma ButtonRequestIsIncomplete(patientRecordId: string, user: Option<Doc>, dateInput: Option<string>,
                                  parsed: Option<int>, reason: Option<string>, urgent: bool)
    ensures var c := ScheduleClick(patientRecordId, user, dateInput, parsed, reason, urgent);
            c.Send? ==> !ScheduleFieldsPresent(c.request)
  {
    var c := ScheduleClick(patientRecordId, user, dateInput, parsed, reason, urgent);
    if c.Send? {
      assert "patientId" !in c.request;
    }
  }

  /** After a doctor's login the `_id` the button sends is the doctors-collection id, not the
      account's: the profile's `_id` overrides the account's in the session. */
  lemma DoctorUserIdIsProfileId(account: Account, d: Profile, patientRecordId: string, date: string,
                                instant: int, reason: Option<string>, urgent: bool)
    requires account.userType == Str("doctor") && d.DoctorProfile? && d.id != ""
    requires MatchesDateTimeShape(date)
    ensures var c := ScheduleClick(patientRecordId, Some(SessionFor(account, Some(d), account.userType)),
                                   Some(date), Some(instant), reason, urgent);
            c.Send? && c.request["doctorUserId"] == Str(d.id)
  {
    SessionOfDoctor(account, d);
    assert date != "" by { assert |date| == 16; }
  }

  /** The dashboard's own guard keeps exactly the sessions of accounts registered as
      doctors, and sends a logged-out user to the login page. */
  lemma GuardAfterLogin(account: Account, profile: Option<Profile>, claimed: Value)
    ensures RoleGuard(Some(SessionFor(account, profile, claimed)), "doctor").None? <==>
              account.userType == Str("doctor")
    ensures RoleGuard(None, "doctor") == Some(GoTo("auth/login"))
  {
    assert "userType" in AccountDoc(account);
    assert profile.Some? ==> "userType" !in ProfileDoc(profile.value);
  }
}
