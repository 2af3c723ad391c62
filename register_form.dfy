/** The registration page: its five-rule `validateForm`, the role-dependent object it submits,
    and what it does with the handler's answer. */
module RegisterForm {
  import opened JsValues
  import opened Passwords
  import opened MainProcess
  import opened Navigation
  import opened Pages

  const BasicFieldsRequired := "Todos os campos básicos são obrigatórios"
  const PasswordsDiffer := "As senhas não coincidem"
  const PasswordTooShort := "A senha deve ter pelo menos 6 caracteres"
  const CrmRequired := "CRM é obrigatório para médicos"
  const BirthDateRequired := "Data de nascimento é obrigatória para pacientes."
  const RegisterFallback := "Erro no registro"
  const MinPasswordLength := 6

  /** The form controls' values; a control the page hides still has a (possibly empty) value. */
  datatype RegisterFields = RegisterFields(
    userType: string, name: string, email: string, password: string, confirmPassword: string,
    crm: string, specialty: string, birthDate: string, healthPlan: string)

  /** The rules in source order. */
  function RegisterRules(f: RegisterFields): seq<Rule>
  {
    [Rule(f.userType != "" && f.name != "" && f.email != "" && f.password != "" && f.confirmPassword != "",
          BasicFieldsRequired),
     Rule(f.password == f.confirmPassword, PasswordsDiffer),
     Rule(|f.password| >= MinPasswordLength, PasswordTooShort),
     Rule(!(f.userType == "doctor" && f.crm == ""), CrmRequired),
     Rule(!(f.userType == "patient" && f.birthDate == ""), BirthDateRequired)]
  }

  /** `validateForm`: None when the form may be submitted, otherwise the message shown. */
  function ValidateRegister(f: RegisterFields): (r: Option<string>)
    ensures r == FirstFailing(RegisterRules(f))
  {
    var rules := RegisterRules(f);
    if f.userType == "" || f.name == "" || f.email == "" || f.password == "" || f.confirmPassword == "" then
      FirstFailingIs(rules, 0);
      Some(BasicFieldsRequired)
    else if f.password != f.confirmPassword then
      FirstFailingIs(rules, 1);
      Some(PasswordsDiffer)
    else if |f.password| < MinPasswordLength then
      FirstFailingIs(rules, 2);
      Some(PasswordTooShort)
    else if f.userType == "doctor" && f.crm == "" then
      FirstFailingIs(rules, 3);
      Some(CrmRequired)
    else if f.userType == "patient" && f.birthDate == "" then
      FirstFailingIs(rules, 4);
      Some(BirthDateRequired)
    else None
  }

  /** Which message wins, rule by rule, and when the form passes. */
  lemma RegisterMessages(f: RegisterFields)
    ensures var basic := f.userType != "" && f.name != "" && f.email != "" && f.password != "" && f.confirmPassword != "";
            (ValidateRegister(f) == Some(BasicFieldsRequired) <==> !basic) &&
            (ValidateRegister(f) == Some(PasswordsDiffer) <==> basic && f.password != f.confirmPassword) &&
            (ValidateRegister(f) == Some(PasswordTooShort) <==>
               basic && f.password == f.confirmPassword && |f.password| < MinPasswordLength) &&
            (ValidateRegister(f) == Some(CrmRequired) <==>
               basic && f.password == f.confirmPassword && |f.password| >= MinPasswordLength &&
               f.userType == "doctor" && f.crm == "") &&
            (ValidateRegister(f) == Some(BirthDateRequired) <==>
               basic && f.password == f.confirmPassword && |f.password| >= MinPasswordLength &&
               f.userType == "patient" && f.birthDate == "") &&
            (ValidateRegister(f).None? <==>
               basic && f.password == f.confirmPassword && |f.password| >= MinPasswordLength &&
               !(f.userType == "doctor" && f.crm == "") && !(f.userType == "patient" && f.birthDate == ""))
  {
    var rules := RegisterRules(f);
    var k :| 0 <= k <= 5 && (forall i :: 0 <= i < k ==> rules[i].holds) && (k == 5 || !rules[k].holds) by {
      if !rules[0].holds { assert 0 <= 0 <= 5; }
      else if !rules[1].holds { assert forall i :: 0 <= i < 1 ==> rules[i].holds; }
      else if !rules[2].holds { assert forall i :: 0 <= i < 2 ==> rules[i].holds; }
      else if !rules[3].holds { assert forall i :: 0 <= i < 3 ==> rules[i].holds; }
      else if !rules[4].holds { assert forall i :: 0 <= i < 4 ==> rules[i].holds; }
      else { assert forall i :: 0 <= i < 5 ==> rules[i].holds; }
    }
    if k < 5 {
      FirstFailingIs(rules, k);
    }
  }

  /** The object passed to `register`: the four basic fields, plus birthDate and healthPlan
      for a patient, or crm and specialty for any other user type. */
  function RegisterPayload(f: RegisterFields): (d: Doc)
    ensures Get(d, "userType") == Str(f.userType) && Get(d, "name") == Str(f.name)
    ensures Get(d, "email") == Str(f.email) && Get(d, "password") == Str(f.password)
    ensures f.userType == "patient" ==>
              d.Keys == {"userType", "name", "email", "password", "birthDate", "healthPlan"} &&
              d["birthDate"] == Str(f.birthDate) && d["healthPlan"] == Str(f.healthPlan)
    ensures f.userType != "patient" ==>
              d.Keys == {"userType", "name", "email", "password", "crm", "specialty"} &&
              d["crm"] == Str(f.crm) && d["specialty"] == Str(f.specialty)
  {
    var basic := map["userType" := Str(f.userType), "name" := Str(f.name), "email" := Str(f.email),
                     "password" := Str(f.password)];
    if f.userType == "patient" then basic["birthDate" := Str(f.birthDate)]["healthPlan" := Str(f.healthPlan)]
    else basic["crm" := Str(f.crm)]["specialty" := Str(f.specialty)]
  }

  /** The page and `user-register` split the roles the same way: the profile built from the
      submitted object is a patient's exactly for 'patient' and carries the form's role
      fields. A validated form's role field (crm for a doctor, birthDate for a patient) is
      stored non-empty. */
  lemma PayloadMatchesProfile(f: RegisterFields, profileId: string, accountId: string)
    ensures var p := NewProfile(RegisterPayload(f), profileId, accountId);
            (p.PatientProfile? <==> f.userType == "patient") &&
            p.name == Str(f.name) && p.email == Str(f.email) &&
            (p.PatientProfile? ==> p.birthDate == Str(f.birthDate) && p.healthPlan == Str(f.healthPlan)) &&
            (p.DoctorProfile? ==> p.crm == Str(f.crm) && p.specialty == Str(f.specialty))
    ensures ValidateRegister(f).None? ==>
              var p := NewProfile(RegisterPayload(f), profileId, accountId);
              (f.userType == "doctor" ==> Truthy(p.crm)) &&
              (f.userType == "patient" ==> Truthy(p.birthDate))
  {
    RegisterMessages(f);
  }

  /** A validated form gets past the hash guard of the database module: its password is at
      least six characters long, so never empty. */
  lemma ValidatedPayloadHashes(b: Bcrypt, f: RegisterFields, salt: string)
    requires ValidateRegister(f).None?
    ensures HashPassword(b, Get(RegisterPayload(f), "password"), salt) ==
              Some(b.hash(f.password, SaltRounds, salt))
  {
    RegisterMessages(f);
  }

  /** The submit handler's last step: back to the login page with `fresh=true` on success,
      otherwise the handler's message, or 'Erro no registro' when it is empty. */
  function AfterRegister(result: Reply<()>): (o: Outcome)
    ensures result.Ok? ==> o == GoTo("auth/login?fresh=true")
    ensures result.Fail? ==> o == ShowError(OrElse(result.message, RegisterFallback))
  {
    match result
    case Ok(_) => GoTo("auth/login?fresh=true")
    case Fail(message) => ShowError(OrElse(message, RegisterFallback))
  }

  /** The page the registration sends the user to: the login page, reloaded ignoring the
      cache and repainted. */
  lemma FreshLoginLoad(page: string)
    requires page == "auth/login?fresh=true"
    ensures NavigateTo(page) == Load("src/pages/auth/login.html", true, true)
  {
    var path, query := "auth/login", "fresh=true";
    assert '?' !in path by {
      forall i | 0 <= i < |path| ensures path[i] != '?' { }
    }
    assert '?' !in query by {
      forall i | 0 <= i < |query| ensures query[i] != '?' { }
    }
    assert Contains(query, "fresh=true");
    assert page == path + ['?'] + query;
    PageWithQuery(path, query);
  }

  /** After a successful registration `navigate-to` loads the login page, bypasses the
      cache and forces a repaint. */
  lemma RegisterReturnsToFreshLogin(o: Outcome)
    requires o == AfterRegister(Ok(()))
    ensures o.GoTo? && NavigateTo(o.page) == Load("src/pages/auth/login.html", true, true)
  {
    FreshLoginLoad(o.page);
  }
}
